/** The slug registry (`Hush` instances): slugs mapped to caller-chosen values.
    Entries are added, overwritten and looked up, never removed. */
module Registry {
  import opened Wrappers

  datatype Hush<T> = Hush(routes: map<string, T>)

  /** `Hush.prototype.get`: the value added for a slug, `None` if never added. */
  function Get<T>(h: Hush<T>, key: string): (r: Option<T>)
    ensures r.Some? <==> key in h.routes
  {
    if key in h.routes then Some(h.routes[key]) else None
  }

  /** `new Hush(map)`: starts from the given table, or an empty one. */
  function New<T>(init: Option<map<string, T>>): (h: Hush<T>)
    ensures init.None? ==> forall key :: Get(h, key).None?
    ensures init.Some? ==> forall key :: key in init.value ==> Get(h, key) == Some(init.value[key])
    ensures init.Some? ==> forall key :: key !in init.value ==> Get(h, key).None?
  {
    Hush(init.GetOr(map[]))
  }

  /** `Hush.prototype.add`: afterwards the slug yields the new value, every
      other slug yields what it yielded before, and the registry is returned
      so that calls chain. */
  function Add<T>(h: Hush<T>, key: string, value: T): (h': Hush<T>)
    ensures Get(h', key) == Some(value)
    ensures forall other :: other != key ==> Get(h', other) == Get(h, other)
    ensures h'.routes.Keys == h.routes.Keys + {key}
  {
    Hush(h.routes[key := value])
  }

  /** Adding a slug twice keeps only the later value. */
  lemma AddOverwrites<T>(h: Hush<T>, key: string, v1: T, v2: T)
    ensures Add(Add(h, key, v1), key, v2) == Add(h, key, v2)
  {
    assert Add(Add(h, key, v1), key, v2).routes == Add(h, key, v2).routes;
  }

  /** Chained adds of different slugs commute. */
  lemma AddCommutes<T>(h: Hush<T>, k1: string, v1: T, k2: string, v2: T)
    requires k1 != k2
    ensures Add(Add(h, k1, v1), k2, v2) == Add(Add(h, k2, v2), k1, v1)
  {
    assert Add(Add(h, k1, v1), k2, v2).routes == Add(Add(h, k2, v2), k1, v1).routes;
  }
}
