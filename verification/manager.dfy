/** `OpenAiClientManager`: one client per session id, created on first request and kept for
    the life of the process. */
module SessionManager {
  import opened ChatClient

  /** The session map: the client each session id refers to. */
  datatype Manager = Manager(instances: map<string, Client>)

  function NewManager(): (m: Manager)
    ensures m.instances == map[]
  {
    Manager(map[])
  }

  /** `getInstance`, with an own-property lookup: the stored client, or a fresh one stored
      under the id. Other ids are untouched. */
  function GetInstance(m: Manager, id: string): (r: (Manager, Client))
    ensures id in r.0.instances && r.1 == r.0.instances[id]
    ensures id in m.instances ==> r.0 == m
    ensures id !in m.instances ==> r.1 == NewClient()
    ensures r.0.instances.Keys == m.instances.Keys + {id}
    ensures forall k :: k in m.instances ==> r.0.instances[k] == m.instances[k]
  {
    if id in m.instances then (m, m.instances[id])
    else (Manager(m.instances[id := NewClient()]), NewClient())
  }

  /** Asking twice for the same id returns the same client and leaves the map as the first
      call left it. */
  lemma GetInstanceIdempotent(m: Manager, id: string)
    ensures var (m1, c1) := GetInstance(m, id);
      GetInstance(m1, id) == (m1, c1)
  {
  }

  /** A request routed to a session: `getInstance` for the id, then an operation on the
      client it returns. The map holds a reference to the client, so the client's new state
      is what the map holds from then on. */
  function WithSession(m: Manager, id: string, op: Client -> Client): (r: Manager)
    ensures id in r.instances
    ensures r.instances.Keys == m.instances.Keys + {id}
    ensures id in m.instances ==> r.instances[id] == op(m.instances[id])
    ensures id !in m.instances ==> r.instances[id] == op(NewClient())
    ensures forall k :: k in m.instances && k != id ==> r.instances[k] == m.instances[k]
  {
    var (m1, c) := GetInstance(m, id);
    Manager(m1.instances[id := op(c)])
  }

  /** A later request for the same session sees the state the earlier operation left, and
      a request for any other session sees what it would have seen without the earlier one. */
  lemma WithSessionSeenLater(m: Manager, id: string, op: Client -> Client, other: string)
    requires other != id
    ensures GetInstance(WithSession(m, id, op), id).1 == op(GetInstance(m, id).1)
    ensures GetInstance(WithSession(m, id, op), other).1 == GetInstance(m, other).1
  {
  }

  /** Two requests for one session act on its client in order. */
  lemma WithSessionComposes(m: Manager, id: string, f: Client -> Client, g: Client -> Client)
    ensures WithSession(WithSession(m, id, f), id, g) == WithSession(m, id, c => g(f(c)))
  {
    var c := GetInstance(m, id).1;
    var m1 := WithSession(m, id, f);
    WithSessionIsUpdate(m, id, f);
    WithSessionIsUpdate(m1, id, g);
    WithSessionIsUpdate(m, id, c => g(f(c)));
    assert GetInstance(m1, id).1 == f(c);
    UpdateOverwrites(m.instances, id, f(c), g(f(c)));
  }

  /** Requests for two different sessions commute. */
  lemma WithSessionsCommute(m: Manager, a: string, f: Client -> Client, b: string, g: Client -> Client)
    requires a != b
    ensures WithSession(WithSession(m, a, f), b, g) == WithSession(WithSession(m, b, g), a, f)
  {
    var ca, cb := GetInstance(m, a).1, GetInstance(m, b).1;
    var ma, mb := WithSession(m, a, f), WithSession(m, b, g);
    WithSessionIsUpdate(m, a, f);
    WithSessionIsUpdate(m, b, g);
    WithSessionIsUpdate(ma, b, g);
    WithSessionIsUpdate(mb, a, f);
    assert GetInstance(ma, b).1 == cb && GetInstance(mb, a).1 == ca;
    UpdatesCommute(m.instances, a, f(ca), b, g(cb));
  }

  /** A routed request stores the operation's result over whatever `getInstance` returned. */
  lemma WithSessionIsUpdate(m: Manager, id: string, op: Client -> Client)
    ensures WithSession(m, id, op).instances == m.instances[id := op(GetInstance(m, id).1)]
  {
  }

  lemma UpdateOverwrites<K, V>(mp: map<K, V>, k: K, x: V, y: V)
    ensures mp[k := x][k := y] == mp[k := y]
  {
  }

  lemma UpdatesCommute<K, V>(mp: map<K, V>, a: K, x: V, b: K, y: V)
    requires a != b
    ensures mp[a := x][b := y] == mp[b := y][a := x]
  {
  }

  /** The names every plain JavaScript object inherits from `Object.prototype`; reading any
      of them from `{}` gives a function or an object, which is truthy. */
  const ObjectPrototypeKeys: set<string> :=
    {"constructor", "__proto__", "__defineGetter__", "__defineSetter__", "__lookupGetter__",
     "__lookupSetter__", "hasOwnProperty", "isPrototypeOf", "propertyIsEnumerable",
     "toLocaleString", "toString", "valueOf"}

  /** What reading a session id from the plain-object map can give. */
  datatype Found = Instance(client: Client) | Inherited(name: string)

  /** `getInstance` as written: `instances` is a plain object, so the truthiness test also
      sees the inherited members and returns them instead of creating a client. */
  function GetInstanceAsWritten(m: Manager, id: string): (r: (Manager, Found))
    ensures r.1.Instance? ==> id in r.0.instances && r.1.client == r.0.instances[id]
    ensures id in m.instances ==> r == (m, Instance(m.instances[id]))
  {
    if id in m.instances then (m, Instance(m.instances[id]))
    else if id in ObjectPrototypeKeys then (m, Inherited(id))
    else (Manager(m.instances[id := NewClient()]), Instance(NewClient()))
  }

  /** The discrepancy: for a session id such as `toString` that has never been stored, the
      method as written hands back the inherited member, and the map stays without a client
      for it; the own-property lookup creates one. */
  lemma AsWrittenReturnsInheritedMember(m: Manager, id: string)
    requires id in ObjectPrototypeKeys && id !in m.instances
    ensures GetInstanceAsWritten(m, id) == (m, Inherited(id))
    ensures GetInstance(m, id).1 == NewClient()
  {
  }

  /** Concrete instance: a fresh manager asked for the session `toString`. */
  lemma AsWrittenToStringSession()
    ensures GetInstanceAsWritten(NewManager(), "toString").1 == Inherited("toString")
  {
    AsWrittenReturnsInheritedMember(NewManager(), "toString");
  }

  /** For every other id the two agree. */
  lemma AsWrittenAgreesElsewhere(m: Manager, id: string)
    requires id !in ObjectPrototypeKeys || id in m.instances
    ensures GetInstanceAsWritten(m, id) == (GetInstance(m, id).0, Instance(GetInstance(m, id).1))
  {
  }
}
