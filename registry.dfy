/** The process-wide registry from client id to that client's limiter. It
    starts out as a nil map; initialisation creates the empty map once and
    refuses a second time; clients are registered at startup and looked up
    when a request names them. */
module Registry {
  import opened Errors
  import Limiters

  // ---------------------------------------------------------------------
  // The registry as a value: None stands for the nil map
  // ---------------------------------------------------------------------

  /** InitClientRateLimiterMap on a registry value: the new registry and the
      error returned. */
  function Initialize<V>(r: Option<map<string, V>>): (res: (Option<map<string, V>>, Outcome))
    ensures res.0.Some?
    ensures res.1 == Pass <==> r.None?
    ensures res.1 == Pass ==> res.0.value == map[]
    ensures r.Some? ==> res.0 == r && res.1 == Fail(ClientMapExists)
  {
    if r.Some? then (r, Fail(ClientMapExists)) else (Some(map[]), Pass)
  }

  /** Lookup with comma-ok: a nil map has no entries. */
  function Find<V>(r: Option<map<string, V>>, id: string): (v: Option<V>)
    ensures v.Some? <==> r.Some? && id in r.value
    ensures v.Some? ==> v.value == r.value[id]
  {
    if r.Some? && id in r.value then Some(r.value[id]) else None
  }

  /** Assignment of an entry; Go panics on assignment into a nil map, so the
      registry must have been initialised. */
  function Insert<V>(r: Option<map<string, V>>, id: string, v: V): (r': Option<map<string, V>>)
    requires r.Some?
    ensures r'.Some? && r'.value.Keys == r.value.Keys + {id}
    ensures Find(r', id) == Some(v)
  {
    Some(r.value[id := v])
  }

  /** Initialisation succeeds once: a second attempt returns ClientMapExists
      and leaves the map, entries included, as it was. */
  lemma InitializeOnce<V>(r: Option<map<string, V>>)
    ensures var first := Initialize(r);
      Initialize(first.0) == (first.0, Fail(ClientMapExists))
  {
  }

  /** A newly initialised registry knows no client. */
  lemma InitializedEmpty<V>(id: string)
    ensures Find(Initialize<V>(None).0, id) == None
  {
  }

  /** A failed initialisation keeps every registered client. */
  lemma FailedInitializeKeepsEntries<V>(r: Option<map<string, V>>, id: string)
    requires r.Some?
    ensures Find(Initialize(r).0, id) == Find(r, id)
  {
  }

  /** Registering one client changes the lookup of that id only. */
  lemma InsertOnlyAffectsItsId<V>(r: Option<map<string, V>>, id: string, v: V, other: string)
    requires r.Some?
    ensures Find(Insert(r, id, v), id) == Some(v)
    ensures other != id ==> Find(Insert(r, id, v), other) == Find(r, other)
  {
  }

  // ---------------------------------------------------------------------
  // The registry object
  // ---------------------------------------------------------------------

  /** The registry the Go program keeps in a package-level variable. */
  class ClientRegistry {
    var clients: Option<map<string, Limiters.Limiter>>

    /** Before initialisation the variable holds the nil map. */
    constructor ()
      ensures clients == None
    {
      clients := None;
    }

    /** InitClientRateLimiterMap: creates the empty map, or returns
        ClientMapExists and changes nothing if it already exists. */
    method InitClientRateLimiterMap() returns (err: Outcome)
      modifies this
      ensures (clients, err) == Initialize(old(clients))
      ensures err == Pass <==> old(clients) == None
      ensures err == Pass ==> clients == Some(map[])
      ensures err != Pass ==> err == Fail(ClientMapExists) && clients == old(clients)
    {
      if clients.Some? {
        return Fail(ClientMapExists);
      }
      clients := Some(map[]);
      return Pass;
    }

    /** The assignment of a client's limiter at startup. */
    method Register(id: string, limiter: Limiters.Limiter)
      requires clients.Some?
      modifies this
      ensures clients == Insert(old(clients), id, limiter)
      ensures Lookup(id) == Some(limiter)
      ensures forall other :: other != id ==> Lookup(other) == old(Lookup(other))
    {
      clients := Some(clients.value[id := limiter]);
    }

    /** The lookup of a request's client id: the registered limiter, or
        None for an id never registered. */
    function Lookup(id: string): (r: Option<Limiters.Limiter>)
      reads this
      ensures r.Some? <==> clients.Some? && id in clients.value
      ensures r.Some? ==> r.value == clients.value[id]
    {
      Find(clients, id)
    }
  }
}
