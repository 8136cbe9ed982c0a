/** The configuration shapes read from realtimer.yaml, as plain values. */
module Config {

  /** One configured table and the operation names (as written) to watch on it. */
  datatype Table = Table(name: string, operations: seq<string>)

  datatype DatabaseSettings = DatabaseSettings(
    dbType: string, username: string, password: string,
    host: string, port: int, name: string, os: string)

  datatype ServerSettings = ServerSettings(
    wsPort: int, httpPort: int, wsBaseUrl: string, httpBaseUrl: string, isRemote: bool)

  datatype DBConfig = DBConfig(tables: seq<Table>, database: DatabaseSettings, servers: ServerSettings)
}
