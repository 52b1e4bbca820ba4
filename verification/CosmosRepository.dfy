/** The document repository the Cosmos backend calls, reduced to a map from item id to document.
    What the real repository does for an id it does not hold is its own affair; here a lookup of
    such an id yields `None` and a delete of it leaves the store as it is. */
module CosmosRepository {
  import opened Wrappers
  import opened Models

  type Store = map<string, CosmosDbBook>

  /** `ExistsAsync(id)`. */
  predicate Exists(store: Store, id: string) {
    id in store
  }

  /** `CreateAsync(item)` / `UpdateAsync(item)`: the item is stored under its own id. */
  function Put(store: Store, item: CosmosDbBook): Store {
    store[item.id := item]
  }

  /** `DeleteAsync(id)`. */
  function Delete(store: Store, id: string): Store {
    store - {id}
  }

  /** `GetAsync(id)`. */
  function Get(store: Store, id: string): Option<CosmosDbBook> {
    if id in store then Some(store[id]) else None
  }
}
