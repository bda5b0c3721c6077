/** The migrations the application registers, and what running them does to any database. */
module AppDatabases {
  import opened Wrappers
  import opened MigrationPlanner
  import opened Schemas
  import opened BaseDatabases

  /** One table of version 2: its name, columns, constrained columns, and the columns it asks an index for. */
  datatype TableSpec = TableSpec(name: string, columns: seq<string>, locked: set<string>, indexed: seq<string>)

  const WALLET := TableSpec("wallet_table",
    ["id", "name", "passphrase", "public_key", "imported", "priority", "status", "type", "create_time", "modify_time",
     "user_id", "wallet_id", "account_count", "balance", "fingerprint", "show_wallet_recovery", "migration_required", "legacy"],
    {"id", "wallet_id"}, ["wallet_id"])

  const ACCOUNT := TableSpec("account_table",
    ["id", "account_id", "wallet_id", "derivation_path", "label", "script_type", "create_time", "modify_time",
     "fiat_currency", "priority", "last_used_index"],
    {"id", "wallet_id", "derivation_path"}, ["wallet_id", "account_id"])

  const ADDRESS := TableSpec("address_table",
    ["id", "server_id", "email", "server_wallet_id", "server_account_id"], {"id"}, ["server_id"])

  const BITCOIN_ADDRESS := TableSpec("bitcoin_address_table",
    ["id", "server_id", "wallet_id", "account_id", "bitcoin_address", "bitcoin_address_index",
     "in_email_integration_pool", "used", "server_wallet_id", "server_account_id"], {"id"}, ["server_id"])

  const CONTACTS := TableSpec("contacts_table",
    ["id", "server_contact_id", "name", "email", "canonical_email", "is_proton"], {"id"}, ["server_contact_id"])

  const EXCHANGE_RATE := TableSpec("exchange_rate_table",
    ["id", "server_id", "bitcoin_unit", "fiat_currency", "sign", "exchange_rate_time", "exchange_rate", "cents"],
    {"id"}, ["server_id"])

  const USERS := TableSpec("users_table",
    ["id", "user_id", "name", "used_space", "currency", "credit", "create_time", "max_space", "max_upload", "role",
     "private", "subscribed", "services", "delinquent", "organization_private_key", "email", "display_name"],
    {"id"}, ["user_id"])

  const USER_KEYS := TableSpec("user_keys_table",
    ["key_id", "user_id", "version", "private_key", "token", "fingerprint", "recovery_secret",
     "recovery_secret_signature", "active", "primary"], {"key_id", "user_id"}, ["key_id"])

  const TRANSACTIONS := TableSpec("transaction_table",
    ["id", "type", "label", "external_transaction_id", "create_time", "modify_time", "hashed_transaction_id",
     "transaction_id", "transaction_time", "exchange_rate_id", "server_wallet_id", "server_account_id", "server_id",
     "sender", "tolist", "subject", "body", "is_suspicious", "is_private", "is_anonymous"], {"id"}, ["server_id"])

  const USER_SETTINGS := TableSpec("wallet_user_settings_table",
    ["user_id", "bitcoin_unit", "fiat_currency", "hide_empty_used_addresses", "show_wallet_recovery",
     "two_factor_amount_threshold", "receive_inviter_notification", "receive_email_integration_notification",
     "wallet_created", "accept_terms_and_conditions"], {"user_id"}, [])

  /** In the order the first migration visits them. */
  const SPECS := [WALLET, ACCOUNT, ADDRESS, BITCOIN_ADDRESS, CONTACTS, EXCHANGE_RATE, USERS, USER_KEYS, TRANSACTIONS, USER_SETTINGS]

  datatype Action = CreateAll | ResetPoolSize

  const VERSION: nat := 3
  const POOL_SIZE := "pool_size"
  const POOL_SIZE_DEFAULT := Number(10)

  // ----- one table

  function AddIndexes(db: Db, t: string, columns: seq<string>): Db
    decreases |columns|
  {
    if columns == [] then db
    else
      match AddIndex(db, t, columns[0])
      case Err(_) => db
      case Ok(db') => AddIndexes(db', t, columns[1..])
  }

  /** `migration_0` of a table; the first failing statement ends it, and its caller ignores the error. */
  function CreateOne(db: Db, spec: TableSpec): Db {
    match CreateTable(DropTable(db, spec.name), spec.name, spec.columns, spec.locked)
    case Err(_) => DropTable(db, spec.name)
    case Ok(db') => AddIndexes(db', spec.name, spec.indexed)
  }

  function CreateEach(db: Db, specs: seq<TableSpec>): Db {
    if specs == [] then db else CreateOne(CreateEach(db, specs[..|specs| - 1]), specs[|specs| - 1])
  }

  /** `migration_1` of the account table: a failing drop is logged, a failing add is returned and ignored. */
  function ResetPool(db: Db): Db {
    var dropped := DropColumn(db, ACCOUNT.name, POOL_SIZE);
    var db' := if dropped.Ok? then dropped.value else db;
    var added := AddColumn(db', ACCOUNT.name, POOL_SIZE, POOL_SIZE_DEFAULT);
    if added.Ok? then added.value else db'
  }

  function Perform(db: Db, a: Action): Db {
    match a
    case CreateAll => CreateEach(db, SPECS)
    case ResetPoolSize => ResetPool(db)
  }

  function PerformAll(db: Db, path: seq<Migration<Action>>): Db
    decreases |path|
  {
    if path == [] then db else PerformAll(Perform(db, path[0].action), path[1..])
  }

  /** `build_database`: without a path nothing is migrated. */
  function Build(db: Db, c: Registry<Action>, oldVersion: nat): Db {
    match GreedyPath(c, oldVersion, VERSION)
    case None => db
    case Some(path) => PerformAll(db, path)
  }

  const MIGRATIONS: seq<Migration<Action>> := [Migration(1, 2, CreateAll), Migration(2, 3, ResetPoolSize)]

  function Registered(): Registry<Action> { AddedAll(map[], MIGRATIONS) }

  class AppDatabase {
    const conn: Connection
    const container: MigrationContainer<Action>

    constructor (db: Db)
      ensures conn.db == db && container.migrations == map[] && fresh(conn) && fresh(container)
    {
      conn := new Connection(db);
      container := new MigrationContainer<Action>();
    }

    /** `init`. */
    method BuildMigration()
      modifies container
      ensures container.migrations == AddedAll(old(container.migrations), MIGRATIONS)
    {
      container.AddMigrations(MIGRATIONS);
    }

    method RunCreateOne(spec: TableSpec)
      modifies conn
      ensures conn.db == CreateOne(old(conn.db), spec)
    {
      var table := new BaseDatabase(conn, spec.name);
      table.DropTable();
      var ok := table.CreateTable(spec.columns, spec.locked);
      if !ok {
        return;
      }
      ghost var created := conn.db;
      var k := 0;
      while k < |spec.indexed|
        invariant 0 <= k <= |spec.indexed|
        invariant AddIndexes(created, spec.name, spec.indexed) == AddIndexes(conn.db, spec.name, spec.indexed[k..])
      {
        ok := table.AddIndex(spec.indexed[k]);
        if !ok {
          return;
        }
        assert spec.indexed[k..][1..] == spec.indexed[k + 1..];
        k := k + 1;
      }
    }

    method RunResetPool()
      modifies conn
      ensures conn.db == ResetPool(old(conn.db))
    {
      var table := new BaseDatabase(conn, ACCOUNT.name);
      var _ := table.DropColumn(POOL_SIZE);
      var _ := table.AddColumn(POOL_SIZE, POOL_SIZE_DEFAULT);
    }

    method Migrate(a: Action)
      modifies conn
      ensures conn.db == Perform(old(conn.db), a)
    {
      match a
      case CreateAll =>
        for k := 0 to |SPECS|
          invariant conn.db == CreateEach(old(conn.db), SPECS[..k])
        {
          RunCreateOne(SPECS[k]);
          assert SPECS[..k + 1][..k] == SPECS[..k];
        }
        assert SPECS[..|SPECS|] == SPECS;
      case ResetPoolSize =>
        RunResetPool();
    }

    method BuildDatabase(oldVersion: nat)
      modifies conn
      ensures conn.db == Build(old(conn.db), container.migrations, oldVersion)
    {
      var path := container.FindMigrationPath(oldVersion, VERSION);
      if path == None {
        return;
      }
      var k := 0;
      while k < |path.value|
        invariant 0 <= k <= |path.value|
        invariant PerformAll(old(conn.db), path.value) == PerformAll(conn.db, path.value[k..])
      {
        Migrate(path.value[k].action);
        assert path.value[k..][1..] == path.value[k + 1..];
        k := k + 1;
      }
    }
  }
}
