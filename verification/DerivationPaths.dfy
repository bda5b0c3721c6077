/** The allocator of derivation paths: `get_new_derivation_path` and the helpers it loops over. */
module DerivationPaths {
  import opened Wrappers
  import opened Decimals
  import opened Daos

  const MAX_ACCOUNTS: nat := 10000

  datatype ProviderError = ReachedMaxAccountSize(limit: nat)

  /** `format_derivation_path`. */
  function Path(bip: nat, coin: nat, index: nat): string {
    Decimal(bip) + ("'/" + (Decimal(coin) + ("'/" + (Decimal(index) + "'"))))
  }

  /** `is_derivation_path_exist`. */
  predicate Exists(accounts: seq<AccountModel>, path: string) {
    exists k :: 0 <= k < |accounts| && accounts[k].derivationPath == path
  }

  /** An account occupies the index if it holds the path in either spelling. */
  predicate Taken(accounts: seq<AccountModel>, bip: nat, coin: nat, index: nat) {
    Exists(accounts, Path(bip, coin, index)) || Exists(accounts, "m/" + Path(bip, coin, index))
  }

  method IsDerivationPathExist(accounts: seq<AccountModel>, path: string) returns (found: bool)
    ensures found == Exists(accounts, path)
  {
    for k := 0 to |accounts|
      invariant !Exists(accounts[..k], path)
    {
      if accounts[k].derivationPath == path {
        return true;
      }
      assert accounts[..k + 1] == accounts[..k] + [accounts[k]];
    }
    assert accounts[..|accounts|] == accounts;
    return false;
  }

  /** The path of the least index that is free in both spellings; an error exactly when the 10001
      indices 0 to 10000 are all taken. */
  method GetNewDerivationPath(accounts: seq<AccountModel>, bip: nat, coin: nat) returns (r: Result<string, ProviderError>)
    ensures r.Err? <==> forall i: nat :: i <= 10000 ==> Taken(accounts, bip, coin, i)
    ensures r.Err? ==> r.error == ReachedMaxAccountSize(10000)
    ensures r.Ok? ==> exists i: nat :: i <= 10000 && IsLeastFree(accounts, bip, coin, i) && r.value == Path(bip, coin, i)
    ensures r == Allocate(accounts, bip, coin)
  {
    var index: nat := 0;
    while true
      invariant index <= MAX_ACCOUNTS
      invariant forall i: nat :: i < index ==> Taken(accounts, bip, coin, i)
      decreases MAX_ACCOUNTS + 1 - index
    {
      var path := Path(bip, coin, index);
      var plain := IsDerivationPathExist(accounts, path);
      var rooted := IsDerivationPathExist(accounts, "m/" + path);
      if plain || rooted {
        assert Taken(accounts, bip, coin, index);
        index := index + 1;
        if index > MAX_ACCOUNTS {
          AllTakenFails(accounts, bip, coin, 0);
          return Err(ReachedMaxAccountSize(MAX_ACCOUNTS));
        }
      } else {
        AllocateIsLeast(accounts, bip, coin, index);
        return Ok(path);
      }
    }
  }

  ghost predicate IsLeastFree(accounts: seq<AccountModel>, bip: nat, coin: nat, index: nat) {
    !Taken(accounts, bip, coin, index) && forall i: nat :: i < index ==> Taken(accounts, bip, coin, i)
  }

  /** The value the method computes, for use in specifications. */
  function Allocate(accounts: seq<AccountModel>, bip: nat, coin: nat): Result<string, ProviderError> {
    AllocateFrom(accounts, bip, coin, 0)
  }

  function AllocateFrom(accounts: seq<AccountModel>, bip: nat, coin: nat, index: nat): Result<string, ProviderError>
    decreases MAX_ACCOUNTS + 1 - index
  {
    if index > MAX_ACCOUNTS then Err(ReachedMaxAccountSize(MAX_ACCOUNTS))
    else if Taken(accounts, bip, coin, index) then AllocateFrom(accounts, bip, coin, index + 1)
    else Ok(Path(bip, coin, index))
  }

  lemma {:induction false} AllocateFromIsLeast(accounts: seq<AccountModel>, bip: nat, coin: nat, from: nat, index: nat)
    requires from <= index <= MAX_ACCOUNTS && IsLeastFree(accounts, bip, coin, index)
    ensures AllocateFrom(accounts, bip, coin, from) == Ok(Path(bip, coin, index))
    decreases index - from
  {
    if from < index {
      assert Taken(accounts, bip, coin, from);
      AllocateFromIsLeast(accounts, bip, coin, from + 1, index);
    } else {
      assert !Taken(accounts, bip, coin, from);
    }
  }

  /** Allocation succeeds as soon as some index is free, and picks the least. */
  lemma AllocateIsLeast(accounts: seq<AccountModel>, bip: nat, coin: nat, index: nat)
    requires index <= MAX_ACCOUNTS && IsLeastFree(accounts, bip, coin, index)
    ensures Allocate(accounts, bip, coin) == Ok(Path(bip, coin, index))
  {
    AllocateFromIsLeast(accounts, bip, coin, 0, index);
  }

  lemma {:induction false} AllocateFromFindsFree(accounts: seq<AccountModel>, bip: nat, coin: nat, from: nat) returns (index: nat)
    requires forall i: nat :: i < from ==> Taken(accounts, bip, coin, i)
    requires AllocateFrom(accounts, bip, coin, from).Ok?
    ensures index <= MAX_ACCOUNTS && IsLeastFree(accounts, bip, coin, index)
    ensures AllocateFrom(accounts, bip, coin, from) == Ok(Path(bip, coin, index))
    decreases MAX_ACCOUNTS + 1 - from
  {
    if Taken(accounts, bip, coin, from) {
      index := AllocateFromFindsFree(accounts, bip, coin, from + 1);
    } else {
      index := from;
    }
  }

  // ----- different indices have different paths

  lemma PathIsInjective(bip1: nat, coin1: nat, i1: nat, bip2: nat, coin2: nat, i2: nat)
    ensures Path(bip1, coin1, i1) == Path(bip2, coin2, i2) <==> bip1 == bip2 && coin1 == coin2 && i1 == i2
  {
    if Path(bip1, coin1, i1) == Path(bip2, coin2, i2) {
      var z1, z2 := "'/" + (Decimal(i1) + "'"), "'/" + (Decimal(i2) + "'");
      var y1, y2 := "'/" + (Decimal(coin1) + z1), "'/" + (Decimal(coin2) + z2);
      NumberFirst(bip1, y1, bip2, y2);
      AfterSeparator(Decimal(coin1) + z1, Decimal(coin2) + z2);
      NumberFirst(coin1, z1, coin2, z2);
      AfterSeparator(Decimal(i1) + "'", Decimal(i2) + "'");
      NumberFirst(i1, "'", i2, "'");
    }
  }

  lemma NumberFirst(m: nat, x: string, n: nat, y: string)
    requires x != "" && !IsDigit(x[0]) && y != "" && !IsDigit(y[0])
    requires Decimal(m) + x == Decimal(n) + y
    ensures m == n && x == y
  {
    DigitsEndWhereTheyEnd(Decimal(m), x, Decimal(n), y);
    DecimalIsInjective(m, n);
  }

  lemma AfterSeparator(x: string, y: string)
    requires "'/" + x == "'/" + y
    ensures x == y
  {
    assert x == ("'/" + x)[2..] && y == ("'/" + y)[2..];
  }

  lemma RootedPathsDiffer(bip1: nat, coin1: nat, i1: nat, bip2: nat, coin2: nat, i2: nat)
    ensures Path(bip1, coin1, i1) != "m/" + Path(bip2, coin2, i2)
  {
    assert IsDigit(Path(bip1, coin1, i1)[0]);
  }

  /** One account takes at most one index of at most one (bip, coin) pair. */
  lemma AccountTakesOneIndex(a: AccountModel, bip1: nat, coin1: nat, i1: nat, bip2: nat, coin2: nat, i2: nat)
    requires Taken([a], bip1, coin1, i1) && Taken([a], bip2, coin2, i2)
    ensures bip1 == bip2 && coin1 == coin2 && i1 == i2
  {
    var p1, p2 := Path(bip1, coin1, i1), Path(bip2, coin2, i2);
    PathIsInjective(bip1, coin1, i1, bip2, coin2, i2);
    RootedPathsDiffer(bip1, coin1, i1, bip2, coin2, i2);
    RootedPathsDiffer(bip2, coin2, i2, bip1, coin1, i1);
    if a.derivationPath == "m/" + p1 && a.derivationPath == "m/" + p2 {
      assert p1 == a.derivationPath[2..] && p2 == a.derivationPath[2..];
    }
  }

  // ----- the pigeonhole argument

  ghost function TakenBelow(accounts: seq<AccountModel>, bip: nat, coin: nat, n: nat): set<nat> {
    set i: nat | i < n && Taken(accounts, bip, coin, i)
  }

  lemma TakenByLast(accounts: seq<AccountModel>, a: AccountModel, bip: nat, coin: nat, i: nat)
    ensures Taken(accounts + [a], bip, coin, i) <==> Taken(accounts, bip, coin, i) || Taken([a], bip, coin, i)
  {
    ExistsInLast(accounts, a, Path(bip, coin, i));
    ExistsInLast(accounts, a, "m/" + Path(bip, coin, i));
  }

  lemma ExistsInLast(accounts: seq<AccountModel>, a: AccountModel, path: string)
    ensures Exists(accounts + [a], path) <==> Exists(accounts, path) || Exists([a], path)
  {
    var all := accounts + [a];
    if Exists(accounts, path) {
      var k :| 0 <= k < |accounts| && accounts[k].derivationPath == path;
      assert all[k].derivationPath == path;
    }
    if Exists([a], path) {
      assert all[|accounts|].derivationPath == path;
    }
  }

  lemma {:induction false} FewAccountsTakeFewIndices(accounts: seq<AccountModel>, bip: nat, coin: nat, n: nat)
    ensures |TakenBelow(accounts, bip, coin, n)| <= |accounts|
  {
    var taken := TakenBelow(accounts, bip, coin, n);
    if accounts == [] {
      assert taken == {};
    } else {
      var init, last := accounts[..|accounts| - 1], accounts[|accounts| - 1];
      assert accounts == init + [last];
      FewAccountsTakeFewIndices(init, bip, coin, n);
      LastTakesOneMore(init, last, bip, coin, n);
    }
  }

  lemma LastTakesOneMore(init: seq<AccountModel>, last: AccountModel, bip: nat, coin: nat, n: nat)
    ensures |TakenBelow(init + [last], bip, coin, n)| <= |TakenBelow(init, bip, coin, n)| + 1
  {
    var taken, before := TakenBelow(init + [last], bip, coin, n), TakenBelow(init, bip, coin, n);
    forall i: nat | i in taken && i !in before ensures Taken([last], bip, coin, i) {
      TakenByLast(init, last, bip, coin, i);
    }
    if taken <= before {
      SubsetSize(taken, before);
    } else {
      var i :| i in taken && i !in before;
      forall j | j in taken && j !in before ensures j == i {
        AccountTakesOneIndex(last, bip, coin, i, bip, coin, j);
      }
      SubsetSize(taken, before + {i});
    }
  }

  lemma {:induction false} SubsetSize(a: set<nat>, b: set<nat>)
    requires a <= b
    ensures |a| <= |b|
  {
    if a != {} {
      var x :| x in a;
      SubsetSize(a - {x}, b - {x});
    }
  }

  ghost function Below(n: nat): (s: set<nat>)
    ensures forall i: nat :: i in s <==> i < n
    ensures |s| == n
  {
    if n == 0 then {} else Below(n - 1) + {n - 1}
  }

  /** If the first `n` indices are taken, there are `n` accounts. */
  lemma TakenPrefixNeedsAccounts(accounts: seq<AccountModel>, bip: nat, coin: nat, n: nat)
    requires forall i: nat :: i < n ==> Taken(accounts, bip, coin, i)
    ensures n <= |accounts|
  {
    FewAccountsTakeFewIndices(accounts, bip, coin, n);
    assert TakenBelow(accounts, bip, coin, n) == Below(n);
  }

  /** With at most 10000 accounts allocation always succeeds, with an index no larger than their number. */
  lemma FewAccountsAlwaysAllocate(accounts: seq<AccountModel>, bip: nat, coin: nat) returns (index: nat)
    requires |accounts| <= 10000
    ensures index <= |accounts| && IsLeastFree(accounts, bip, coin, index)
    ensures Allocate(accounts, bip, coin) == Ok(Path(bip, coin, index))
  {
    if Allocate(accounts, bip, coin).Err? {
      forall i: nat | i <= MAX_ACCOUNTS ensures Taken(accounts, bip, coin, i) {
        AllTaken(accounts, bip, coin, 0, i);
      }
      TakenPrefixNeedsAccounts(accounts, bip, coin, MAX_ACCOUNTS + 1);
      assert false;
    }
    index := AllocateFromFindsFree(accounts, bip, coin, 0);
    TakenPrefixNeedsAccounts(accounts, bip, coin, index);
  }

  lemma {:induction false} AllTakenFails(accounts: seq<AccountModel>, bip: nat, coin: nat, from: nat)
    requires forall i: nat :: i <= MAX_ACCOUNTS ==> Taken(accounts, bip, coin, i)
    ensures AllocateFrom(accounts, bip, coin, from) == Err(ReachedMaxAccountSize(MAX_ACCOUNTS))
    decreases MAX_ACCOUNTS + 1 - from
  {
    if from <= MAX_ACCOUNTS {
      AllTakenFails(accounts, bip, coin, from + 1);
    }
  }

  lemma {:induction false} AllTaken(accounts: seq<AccountModel>, bip: nat, coin: nat, from: nat, i: nat)
    requires AllocateFrom(accounts, bip, coin, from).Err? && from <= i <= MAX_ACCOUNTS
    ensures Taken(accounts, bip, coin, i)
    decreases i - from
  {
    if from < i {
      AllTaken(accounts, bip, coin, from + 1, i);
    }
  }
}
