/** Picks the storage backend from the configured service type. */
module BookServiceFactory {
  import opened Wrappers

  datatype Backend = InMemory | SQLite | CosmosDb

  /** The configuration section; `serviceType` may be bound to `null`. Connection strings are not modelled. */
  datatype DatabaseOptions = DatabaseOptions(serviceType: Option<string>)

  /** `_options?.Value.ServiceType ?? "InMemory"`. */
  function ServiceType(options: Option<DatabaseOptions>): (name: string)
    ensures (options.None? || options.value.serviceType.None?) ==> name == "InMemory"
    ensures options.Some? && options.value.serviceType.Some? ==> name == options.value.serviceType.value
  {
    match options
    case None => "InMemory"
    case Some(o) => o.serviceType.GetOr("InMemory")
  }

  /** The switch over the name: exact, case-sensitive matches, with everything else falling back to memory. */
  function Select(name: string): (b: Backend)
    ensures b == CosmosDb <==> name == "CosmosDb"
    ensures b == SQLite <==> name == "SQLite"
    ensures b == InMemory <==> name != "CosmosDb" && name != "SQLite"
  {
    match name
    case "CosmosDb" => CosmosDb
    case "SQLite" => SQLite
    case _ => InMemory
  }

  /** `GetBookService()`: the backend named by the options, in-memory when none is named. */
  function GetBookService(options: Option<DatabaseOptions>): (b: Backend)
    ensures b == CosmosDb <==> options.Some? && options.value.serviceType == Some("CosmosDb")
    ensures b == SQLite <==> options.Some? && options.value.serviceType == Some("SQLite")
    ensures b == InMemory <==> !(options.Some? && options.value.serviceType in {Some("CosmosDb"), Some("SQLite")})
  {
    Select(ServiceType(options))
  }

  /** Names are matched exactly: other spellings, the empty string and "InMemory" itself all pick memory. */
  lemma UnrecognisedNamesPickMemory()
    ensures Select("InMemory") == InMemory
    ensures Select("") == InMemory
    ensures Select("sqlite") == InMemory
    ensures Select("cosmosdb") == InMemory
    ensures GetBookService(None) == InMemory
    ensures GetBookService(Some(DatabaseOptions(None))) == InMemory
  {
  }
}
