/** One SQLite file per account: `WalletMobilePersisterFactory::build` turns a derivation path into a
    file name by writing '_' for both '\'' and '/'.  The replacement looks lossy; on derivation
    paths it is not, and `Decode` undoes it. */
module AccountFiles {
  import opened Wrappers
  import opened Decimals
  import DerivationPaths

  /** `str::replace` with a one-character pattern. */
  function Replace(s: string, a: char, b: char): (r: string)
    ensures |r| == |s|
    ensures forall i :: 0 <= i < |s| ==> r[i] == if s[i] == a then b else s[i]
  {
    if s == "" then "" else [if s[0] == a then b else s[0]] + Replace(s[1..], a, b)
  }

  function Clean(key: string): string {
    Replace(Replace(key, '\'', '_'), '/', '_')
  }

  function DbPath(folder: string, key: string): string {
    folder + "/proton_wallet_bdk_" + Clean(key) + ".sqlite"
  }

  // ----- derivation paths

  datatype Component = Component(digits: string, hardened: bool)

  /** `m/` or not, then the components, separated by '/' and marked with '\'' when hardened. */
  datatype PathText = PathText(rooted: bool, components: seq<Component>)

  predicate WellFormed(p: PathText) {
    && p.components != []
    && forall i :: 0 <= i < |p.components| ==> p.components[i].digits != "" && AllDigits(p.components[i].digits)
  }

  function Join(cs: seq<Component>): string
    requires cs != []
  {
    cs[0].digits + ((if cs[0].hardened then "'" else "") + (if |cs| == 1 then "" else "/" + Join(cs[1..])))
  }

  function Print(p: PathText): string
    requires p.components != []
  {
    (if p.rooted then "m/" else "") + Join(p.components)
  }

  /** Reads components back from a cleaned text: after the digits, one '_' at the end or two in the
      middle stand for a hardened component. */
  function DecodeComponents(s: string): Option<seq<Component>>
    decreases |s|
  {
    var n := Span(s);
    var digits, rest := s[..n], s[n..];
    if n == 0 then None
    else if rest == "" then Some([Component(digits, false)])
    else if rest == "_" then Some([Component(digits, true)])
    else if rest[0] != '_' then None
    else
      var hardened := rest[1] == '_';
      match DecodeComponents(if hardened then rest[2..] else rest[1..])
      case None => None
      case Some(cs) => Some([Component(digits, hardened)] + cs)
  }

  function Decode(s: string): Option<PathText> {
    var rooted := |s| >= 2 && s[..2] == "m_";
    match DecodeComponents(if rooted then s[2..] else s)
    case None => None
    case Some(cs) => Some(PathText(rooted, cs))
  }

  // ----- the round trip

  lemma CleanConcat(a: string, b: string)
    ensures Clean(a + b) == Clean(a) + Clean(b)
  {
  }

  lemma CleanDigits(s: string)
    requires AllDigits(s)
    ensures Clean(s) == s
  {
  }

  lemma CleanMark(hardened: bool)
    ensures Clean(if hardened then "'" else "") == if hardened then "_" else ""
  {
  }

  lemma CleanTail(inner: string)
    ensures Clean("/" + inner) == "_" + Clean(inner)
  {
    CleanConcat("/", inner);
    assert Clean("/") == "_";
  }

  /** What a cleaned component looks like. */
  lemma CleanJoin(cs: seq<Component>)
    requires cs != [] && AllDigits(cs[0].digits)
    ensures Clean(Join(cs)) == cs[0].digits + ((if cs[0].hardened then "_" else "") + (if |cs| == 1 then "" else "_" + Clean(Join(cs[1..]))))
  {
    var mark := if cs[0].hardened then "'" else "";
    var tail := if |cs| == 1 then "" else "/" + Join(cs[1..]);
    CleanConcat(cs[0].digits, mark + tail);
    CleanDigits(cs[0].digits);
    CleanConcat(mark, tail);
    CleanMark(cs[0].hardened);
    if |cs| > 1 {
      CleanTail(Join(cs[1..]));
    }
  }

  lemma DecodeLast(digits: string, hardened: bool)
    requires digits != "" && AllDigits(digits)
    ensures DecodeComponents(digits + (if hardened then "_" else "")) == Some([Component(digits, hardened)])
  {
    SpanOf(digits, if hardened then "_" else "");
  }

  lemma DecodeMore(digits: string, hardened: bool, inner: string, cs: seq<Component>)
    requires digits != "" && AllDigits(digits) && inner != "" && inner[0] != '_'
    requires DecodeComponents(inner) == Some(cs)
    ensures DecodeComponents(digits + ((if hardened then "_" else "") + ("_" + inner))) == Some([Component(digits, hardened)] + cs)
  {
    var rest := (if hardened then "_" else "") + ("_" + inner);
    SpanOf(digits, rest);
    assert rest[1] == '_' <==> hardened;
    assert (if hardened then rest[2..] else rest[1..]) == inner;
  }

  lemma {:induction false} DecodeUndoesJoin(cs: seq<Component>)
    requires WellFormed(PathText(false, cs))
    ensures DecodeComponents(Clean(Join(cs))) == Some(cs)
    ensures IsDigit(Clean(Join(cs))[0])
  {
    CleanJoin(cs);
    if |cs| == 1 {
      DecodeLast(cs[0].digits, cs[0].hardened);
      var mark := if cs[0].hardened then "_" else "";
      assert mark + "" == mark;
      assert cs == [Component(cs[0].digits, cs[0].hardened)];
    } else {
      DecodeUndoesJoin(cs[1..]);
      DecodeMore(cs[0].digits, cs[0].hardened, Clean(Join(cs[1..])), cs[1..]);
      assert cs == [Component(cs[0].digits, cs[0].hardened)] + cs[1..];
    }
  }

  /** Cleaning can be undone on every derivation path. */
  lemma DecodeUndoesClean(p: PathText)
    requires WellFormed(p)
    ensures Decode(Clean(Print(p))) == Some(p)
  {
    DecodeUndoesJoin(p.components);
    var joined := Clean(Join(p.components));
    if p.rooted {
      CleanConcat("m/", Join(p.components));
      assert Clean("m/") == "m_";
      assert Clean(Print(p)) == "m_" + joined;
      assert ("m_" + joined)[2..] == joined;
    } else {
      assert Print(p) == Join(p.components);
    }
  }

  /** Accounts with different derivation paths never share a database file. */
  lemma DifferentPathsHaveDifferentFiles(folder: string, p1: PathText, p2: PathText)
    requires WellFormed(p1) && WellFormed(p2)
    ensures DbPath(folder, Print(p1)) == DbPath(folder, Print(p2)) <==> p1 == p2
  {
    DecodeUndoesClean(p1);
    DecodeUndoesClean(p2);
    var prefix, c1, c2 := folder + "/proton_wallet_bdk_", Clean(Print(p1)), Clean(Print(p2));
    if DbPath(folder, Print(p1)) == DbPath(folder, Print(p2)) {
      var f1, f2 := DbPath(folder, Print(p1)), DbPath(folder, Print(p2));
      assert f1 == prefix + c1 + ".sqlite" && f2 == prefix + c2 + ".sqlite";
      assert |c1| == |c2|;
      assert c1 == f1[|prefix|..|prefix| + |c1|] && c2 == f2[|prefix|..|prefix| + |c2|];
    }
  }

  /** What the file of the first account of a native segwit wallet is called. */
  lemma FileOfFirstAccount(folder: string)
    ensures DbPath(folder, "84'/0'/0'") == folder + "/proton_wallet_bdk_" + "84__0__0_" + ".sqlite"
  {
    FirstAccountCleaned();
  }

  lemma FirstAccountCleaned()
    ensures Clean("84'/0'/0'") == "84__0__0_"
  {
    PurposeCleaned();
    AccountCleaned();
    CleanConcat("84'/", "0'/0'");
    assert "84'/0'/0'" == "84'/" + "0'/0'" && "84__0__0_" == "84__" + "0__0_";
  }

  lemma PurposeCleaned()
    ensures Clean("84'/") == "84__"
  {
    CleanAt("84'/");
  }

  lemma AccountCleaned()
    ensures Clean("0'/0'") == "0__0_"
  {
    CleanAt("0'/0'");
  }

  /** The characters a cleaned name does not tell apart. */
  predicate Merged(c: char) { c == '\'' || c == '/' || c == '_' }

  /** Exactly which texts share a cleaned name. */
  lemma CleanCollidesIff(a: string, b: string)
    ensures Clean(a) == Clean(b) <==>
            |a| == |b| && forall i :: 0 <= i < |a| ==> a[i] == b[i] || (Merged(a[i]) && Merged(b[i]))
  {
    var ca, cb := Clean(a), Clean(b);
    CleanAt(a);
    CleanAt(b);
    if ca == cb {
      forall i | 0 <= i < |a| ensures a[i] == b[i] || (Merged(a[i]) && Merged(b[i])) {
        assert ca[i] == cb[i];
      }
    } else if |a| == |b| {
      var i :| 0 <= i < |a| && ca[i] != cb[i];
    }
  }

  lemma CleanAt(s: string)
    ensures |Clean(s)| == |s|
    ensures forall i :: 0 <= i < |s| ==> Clean(s)[i] == if Merged(s[i]) then '_' else s[i]
  {
  }

  /** Being a derivation path matters: other texts do collide. */
  lemma OtherTextsCollide()
    ensures Clean("84'0") == Clean("84/0")
    ensures forall p :: WellFormed(p) ==> Print(p) != "84'0"
  {
    assert Clean("84'0") == "84_0" == Clean("84/0");
    forall p | WellFormed(p) ensures Print(p) != "84'0" {
      if Print(p) == "84'0" {
        DecodeUndoesClean(p);
      }
    }
  }

  /** The allocator's paths, in both spellings it looks for, are derivation paths. */
  function Allocated(rooted: bool, bip: nat, coin: nat, index: nat): PathText {
    PathText(rooted, [Component(Decimal(bip), true), Component(Decimal(coin), true), Component(Decimal(index), true)])
  }

  lemma AllocatedPrints(rooted: bool, bip: nat, coin: nat, index: nat)
    ensures WellFormed(Allocated(rooted, bip, coin, index))
    ensures Print(Allocated(rooted, bip, coin, index)) ==
            (if rooted then "m/" else "") + DerivationPaths.Path(bip, coin, index)
  {
    var p := Allocated(rooted, bip, coin, index);
    var cs := p.components;
    assert cs[1..][0] == cs[1] && cs[1..][1..] == [cs[2]];
    assert Join([cs[2]]) == Decimal(index) + "'" by {
      assert Decimal(index) + ("'" + "") == Decimal(index) + "'";
    }
    assert Join(cs[1..]) == Decimal(coin) + ("'" + ("/" + Join([cs[2]])));
    assert "'" + ("/" + Join([cs[2]])) == "'/" + (Decimal(index) + "'");
    assert "'" + ("/" + Join(cs[1..])) == "'/" + Join(cs[1..]);
  }

  /** Two accounts whose paths the allocator could have given out have their own files. */
  lemma AllocatedAccountsHaveTheirOwnFiles(folder: string, bip1: nat, coin1: nat, i1: nat, bip2: nat, coin2: nat, i2: nat)
    ensures DbPath(folder, DerivationPaths.Path(bip1, coin1, i1)) == DbPath(folder, DerivationPaths.Path(bip2, coin2, i2))
            <==> bip1 == bip2 && coin1 == coin2 && i1 == i2
  {
    AllocatedPrints(false, bip1, coin1, i1);
    AllocatedPrints(false, bip2, coin2, i2);
    DifferentPathsHaveDifferentFiles(folder, Allocated(false, bip1, coin1, i1), Allocated(false, bip2, coin2, i2));
    DecimalIsInjective(bip1, bip2);
    DecimalIsInjective(coin1, coin2);
    DecimalIsInjective(i1, i2);
    var c1, c2 := Allocated(false, bip1, coin1, i1).components, Allocated(false, bip2, coin2, i2).components;
    assert c1 == c2 <==> c1[0] == c2[0] && c1[1] == c2[1] && c1[2] == c2[2];
    assert "" + DerivationPaths.Path(bip1, coin1, i1) == DerivationPaths.Path(bip1, coin1, i1);
    assert "" + DerivationPaths.Path(bip2, coin2, i2) == DerivationPaths.Path(bip2, coin2, i2);
  }
}
