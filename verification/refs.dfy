/**
 * Reachability of subscriptions: HARD references always reach their object, WEAK
 * references reach it only while the garbage collector has not reclaimed it.
 *
 * Reclamation is an explicit parameter: `alive` is the set of objects not yet
 * reclaimed.  Classes and objects are reduced to what the bus asks of them: the
 * class name, the names of all its supertypes (for `isAssignableFrom`), the
 * `@Reference` annotation, and whether the object is `Referencable`.
 */
module Refs {
  import opened Common

  datatype Reachability = Hard | Weak

  /** A class: its name, the names of all its proper supertypes, and the value of its
      `@Reference` annotation if it carries one. */
  datatype JClass = JClass(name: string, supertypes: set<string>, reference: Option<Reachability>)

  /** An object with its identity, its class, and its own reachability when it
      implements `Referencable`. */
  datatype JObject = JObject(id: nat, cls: JClass, referencable: Option<Reachability>)

  /** A reference produced by `wrap`. */
  datatype Ref<T> = Ref(kind: Reachability, referent: T)

  /** `Class.isAssignableFrom`: c is t or a subtype of t. */
  predicate IsAssignableFrom(t: JClass, c: JClass) {
    t.name == c.name || t.name in c.supertypes
  }

  /** `Ref.get`: a HARD ref always answers its object, a WEAK ref only while the object
      is alive; no ref ever answers anything else. */
  function Get<T(==)>(r: Ref<T>, alive: set<T>): (v: Option<T>)
    ensures v.Some? ==> v.value == r.referent
    ensures r.kind == Hard ==> v.Some?
    ensures r.kind == Weak ==> (v.Some? <==> r.referent in alive)
  {
    if r.kind == Hard || r.referent in alive then Some(r.referent) else None
  }

  /** `Reachability.of(Class)`: the annotation value, HARD when there is none. */
  function OfClass(c: JClass): (r: Reachability)
    ensures c.reference.Some? ==> r == c.reference.value
    ensures c.reference.None? ==> r == Hard
  {
    match c.reference
    case Some(k) => k
    case None => Hard
  }

  /** `Reachability.of(Object)`: the object's own reachability when it is Referencable,
      otherwise its class's. */
  function OfObject(o: JObject): (r: Reachability)
    ensures o.referencable.Some? ==> r == o.referencable.value
    ensures o.referencable.None? ==> r == OfClass(o.cls)
    ensures o.referencable.None? && o.cls.reference.None? ==> r == Hard
  {
    match o.referencable
    case Some(k) => k
    case None => OfClass(o.cls)
  }

  /** A reclaimed object stays reclaimed: a ref that answers nothing still answers
      nothing once more objects are collected. */
  lemma ReclaimedStaysReclaimed<T>(r: Ref<T>, alive: set<T>, later: set<T>)
    requires later <= alive
    ensures Get(r, alive).None? ==> Get(r, later).None?
    ensures Get(r, later).Some? ==> Get(r, alive) == Get(r, later)
  {
  }
}
