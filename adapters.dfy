/**
 * adapters.New: choose the backend from the configured database type and
 * run its setup. What a backend's setup does (connecting, installing the
 * plugin, reconciling triggers) is a parameter here: `setup` returns the
 * error message it ends with, if any.
 */
module Adapters {
  import opened Wrappers
  import opened Config
  import Text

  datatype Backend = MySqlBackend | PostgresBackend

  datatype SetupError = UndefinedDatabaseType | BackendFailed(message: string)

  /** The backend a database type selects: the type must be written exactly `mysql` or `postgres`. */
  function BackendFor(dbType: string): (r: Option<Backend>)
    ensures r == Some(MySqlBackend) <==> dbType == "mysql"
    ensures r == Some(PostgresBackend) <==> dbType == "postgres"
  {
    if dbType == "mysql" then Some(MySqlBackend)
    else if dbType == "postgres" then Some(PostgresBackend)
    else None
  }

  /** New: an unknown type fails before any setup; otherwise the selected setup's error is returned. */
  function New(cfg: DBConfig, setup: (Backend, DBConfig) -> Option<string>): (r: Option<SetupError>)
    ensures r == Some(UndefinedDatabaseType) <==> BackendFor(cfg.database.dbType).None?
    ensures BackendFor(cfg.database.dbType).Some? ==>
              (r.None? <==> setup(BackendFor(cfg.database.dbType).value, cfg).None?)
  {
    match BackendFor(cfg.database.dbType)
    case None => Some(UndefinedDatabaseType)
    case Some(b) =>
      match setup(b, cfg)
      case None => None
      case Some(message) => Some(BackendFailed(message))
  }

  /** With setups that succeed, New succeeds exactly for the two type strings. */
  lemma AcceptsExactly(cfg: DBConfig, setup: (Backend, DBConfig) -> Option<string>)
    requires forall b :: setup(b, cfg).None?
    ensures New(cfg, setup).None? <==> cfg.database.dbType in {"mysql", "postgres"}
  {
  }

  /**
   * The type is compared as written: a type that lower-cases to `mysql` or
   * `postgres` but is not written that way is an undefined database type.
   */
  lemma OtherCasingRefused(cfg: DBConfig, setup: (Backend, DBConfig) -> Option<string>)
    requires Text.Lower(cfg.database.dbType) in {"mysql", "postgres"}
    requires cfg.database.dbType !in {"mysql", "postgres"}
    ensures New(cfg, setup) == Some(UndefinedDatabaseType)
  {
  }

  /** Illustration: the type is compared as written, so `MySQL` is not `mysql`. */
  lemma CaseMatters(cfg: DBConfig, setup: (Backend, DBConfig) -> Option<string>)
    requires cfg.database.dbType == "MySQL"
    ensures New(cfg, setup) == Some(UndefinedDatabaseType)
  {
    assert "MySQL"[0] != "mysql"[0];
  }
}
