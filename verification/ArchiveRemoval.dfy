/**
 Carrying a removal plan out: list, delete, list again. The store may refuse any
 call, may delete only part of what it was asked to, and other writers go on using
 it. settleArchive's checks come first: the event store and its namespace must be
 seen gone.
 */
module ArchiveRemoval {
  import opened Wrappers
  import opened ArchivePlan

  datatype Key = Key(bucket: string, name: string)

  type Objects = map<Key, nat>

  /** What happens while a plan is carried out. */
  datatype Weather = Weather(
    eventStoreReadable: bool,
    namespaceReadable: bool,
    opens: bool,
    lists: bool,
    deletes: bool,         // the delete call reports success
    spared: set<Key>,      // keys the store did not delete although asked to
    arrivals: Objects,     // what others write meanwhile
    listsAgain: bool,
    interrupted: bool)     // the command has been cancelled by the time the plan was carried out

  predicate InScope(p: Plan, k: Key)
    requires p.Remove?
  {
    k.bucket == p.bucket && p.prefix <= k.name
  }

  function Scope(objects: Objects, p: Plan): set<Key>
    requires p.Remove?
  {
    set k | k in objects && InScope(p, k)
  }

  /** removeInstanceArchive: the objects afterwards, and whether anything is reported left. */
  function RemoveAll(objects: Objects, p: Plan, w: Weather): (r: (Objects, bool))
    requires p.Remove?
  {
    if !w.opens || !w.lists then (objects, true)
    else
      var asked := Scope(objects, p);
      var after := (objects - (asked - w.spared)) + w.arrivals;
      if asked != {} && !w.deletes then (after, true)
      else if !w.listsAgain then (after, true)
      else (after, Scope(after, p) != {})
  }

  /** settleArchive: nothing is deleted unless the event store and the namespace are seen gone. */
  function Settle(objects: Objects, p: Plan, eventStore: bool, namespace: bool, w: Weather): (r: (Objects, bool))
  {
    match p
    case NoArchive => (objects, false)
    case Keep => (objects, false)
    case External => (objects, false)
    case Unknown(_) => (objects, true)
    case Remove(_, _, _, _) =>
      if !w.eventStoreReadable || eventStore then (objects, true)
      else if !w.namespaceReadable || namespace then (objects, true)
      else RemoveAll(objects, p, w)
  }

  /** What the command does with the result: it fails only when it was interrupted with something left. */
  predicate FailsTheDestroy(p: Plan, left: bool, w: Weather)
  {
    left && p.Remove? && w.interrupted
  }

  /**
   A removal that reports nothing left has emptied the prefix. Whatever it reports,
   it removes only what is under the prefix, and nothing at all unless the event
   store and the namespace were seen gone; every other object is as it was, or as
   somebody else rewrote it meanwhile.
   */
  lemma SettleIsContained(objects: Objects, p: Plan, eventStore: bool, namespace: bool, w: Weather)
    ensures var (after, left) := Settle(objects, p, eventStore, namespace, w);
            && (p.Remove? && !left ==> !eventStore && !namespace && Scope(after, p) == {})
            && (forall k :: k in objects && k !in after ==>
                  p.Remove? && InScope(p, k) && !eventStore && !namespace)
            && (forall k :: k in after && k !in w.arrivals ==> k in objects && after[k] == objects[k])
            && (forall k :: k in after && k in w.arrivals ==>
                  after[k] == w.arrivals[k] || (k in objects && after[k] == objects[k]))
  {
  }

  /** With nobody else writing, the objects outside the prefix are exactly what they were. */
  lemma OthersUntouched(objects: Objects, p: Plan, eventStore: bool, namespace: bool, w: Weather, k: Key)
    requires w.arrivals == map[] && (p.Remove? ==> !InScope(p, k))
    ensures var after := Settle(objects, p, eventStore, namespace, w).0;
            (k in after <==> k in objects) && (k in objects ==> after[k] == objects[k])
  {
    SettleIsContained(objects, p, eventStore, namespace, w);
  }

  /** The store keeps its word: a key it was asked to delete and did not is an error. */
  ghost predicate Honest(objects: Objects, p: Plan, w: Weather)
    requires p.Remove?
  {
    w.deletes ==> Scope(objects, p) !! w.spared
  }

  /**
   Over a store that keeps its word, and with nobody writing under the prefix, a removal
   leaves something, and says so, exactly when a call it needed failed.
   */
  lemma HonestStoreIsEmptied(objects: Objects, p: Plan, w: Weather)
    requires p.Remove? && Honest(objects, p, w) && Scope(w.arrivals, p) == {}
    ensures var (after, left) := RemoveAll(objects, p, w);
            && (left <==> !(w.opens && w.lists && w.listsAgain && (Scope(objects, p) != {} ==> w.deletes)))
            && (!left ==> Scope(after, p) == {})
  {
    var after := (objects - (Scope(objects, p) - w.spared)) + w.arrivals;
    if w.deletes || Scope(objects, p) == {} {
      forall k | k in after
        ensures !InScope(p, k)
      {
        assert k in w.arrivals ==> k !in Scope(w.arrivals, p);
      }
    }
  }

  /** The event store or its namespace could not be seen gone. */
  predicate NotSeenGone(eventStore: bool, namespace: bool, w: Weather)
  {
    !w.eventStoreReadable || eventStore || !w.namespaceReadable || namespace
  }

  /**
   Settling a removal removes: over a store that keeps its word, and with nobody writing
   under the prefix, something is left exactly when the event store or the namespace was
   not seen gone, or the store could not be opened or listed, did not delete what there
   was, or could not be listed again. Otherwise nothing under the prefix is left.
   */
  lemma SettleRemoves(objects: Objects, p: Plan, eventStore: bool, namespace: bool, w: Weather)
    requires p.Remove? && Scope(w.arrivals, p) == {}
    requires w.deletes ==> forall k :: k in objects && k.bucket == p.bucket && p.prefix <= k.name ==> k !in w.spared
    ensures var (after, left) := Settle(objects, p, eventStore, namespace, w);
            && (left <==>
                  || !w.eventStoreReadable || eventStore || !w.namespaceReadable || namespace
                  || !w.opens || !w.lists || !w.listsAgain
                  || (!w.deletes && exists k :: k in objects && k.bucket == p.bucket && p.prefix <= k.name))
            && (!left ==> forall k :: k in after ==> !(k.bucket == p.bucket && p.prefix <= k.name))
  {
    ScopeIsNotEmpty(objects, p);
    if !NotSeenGone(eventStore, namespace, w) {
      HonestStoreIsEmptied(objects, p, w);
      ScopeIsNotEmpty(Settle(objects, p, eventStore, namespace, w).0, p);
    }
  }

  /**
   Over any store, whatever it spares and whatever others write meanwhile: once the checks
   and the first listing have passed, exactly the objects under the prefix are asked to go,
   and something is reported left exactly when a call failed or the prefix is not empty.
   */
  lemma SettleOverAnyStore(objects: Objects, p: Plan, w: Weather)
    requires p.Remove? && w.eventStoreReadable && w.namespaceReadable && w.opens && w.lists
    ensures var (after, left) := Settle(objects, p, false, false, w);
            && (forall k :: k in after <==>
                  || k in w.arrivals
                  || (k in objects && (k in w.spared || !(k.bucket == p.bucket && p.prefix <= k.name))))
            && (left <==>
                  || !w.listsAgain
                  || (!w.deletes && exists k :: k in objects && k.bucket == p.bucket && p.prefix <= k.name)
                  || exists k :: k in after && k.bucket == p.bucket && p.prefix <= k.name)
  {
    var after := Settle(objects, p, false, false, w).0;
    ScopeIsNotEmpty(objects, p);
    ScopeIsNotEmpty(after, p);
  }

  lemma ScopeIsNotEmpty(objects: Objects, p: Plan)
    requires p.Remove?
    ensures Scope(objects, p) != {} <==> exists k :: k in objects && k.bucket == p.bucket && p.prefix <= k.name
  {
    if k :| k in objects && k.bucket == p.bucket && p.prefix <= k.name {
      assert k in Scope(objects, p);
    }
  }

  /** The other plans touch nothing, and only one that does not know the archive says that it was left. */
  lemma OtherPlansTouchNothing(objects: Objects, p: Plan, eventStore: bool, namespace: bool, w: Weather)
    requires !p.Remove?
    ensures Settle(objects, p, eventStore, namespace, w) == (objects, p.Unknown?)
  {
  }

  /** The archive store, as far as destroy uses it. */
  class ArchiveStore {
    var objects: Objects

    constructor (objects: Objects)
      ensures this.objects == objects
    {
      this.objects := objects;
    }

    /** Every object under the prefix, in some order, each once. */
    method List(p: Plan) returns (found: seq<Key>)
      requires p.Remove?
      ensures forall k :: k in found <==> k in Scope(objects, p)
    {
      found := [];
      var rest := Scope(objects, p);
      while rest != {}
        invariant rest <= Scope(objects, p)
        invariant forall k :: k in found <==> k in Scope(objects, p) && k !in rest
        decreases |rest|
      {
        var k :| k in rest;
        found := found + [k];
        rest := rest - {k};
      }
    }

    /**
     Deletes the keys, except those the store spares; others may write meanwhile. A store
     that keeps its word reports success only if it spared none of them.
     */
    method Delete(keys: seq<Key>, w: Weather) returns (ok: bool)
      modifies this
      ensures objects == (old(objects) - ((set k | k in keys) - w.spared)) + w.arrivals
      ensures ok == w.deletes
      ensures ok && (w.deletes ==> (set k | k in keys) !! w.spared) ==>
                forall k :: k in keys && k in objects ==> k in w.arrivals
    {
      objects := (objects - ((set k | k in keys) - w.spared)) + w.arrivals;
      ok := w.deletes;
    }

    /** removeInstanceArchive. Asking for no keys is the same as not asking. */
    method RemoveInstanceArchive(p: Plan, w: Weather) returns (left: bool)
      requires p.Remove?
      modifies this
      ensures (objects, left) == RemoveAll(old(objects), p, w)
    {
      if !w.opens || !w.lists {
        return true;
      }
      var objs := List(p);
      var keys := [];
      for i := 0 to |objs|
        invariant keys == objs[..i]
      {
        keys := keys + [objs[i]];
      }
      assert keys == objs;
      assert (set k | k in keys) == Scope(objects, p);
      assert keys == [] <==> Scope(objects, p) == {} by {
        if keys != [] {
          assert keys[0] in Scope(objects, p);
        }
      }
      var ok := Delete(keys, w);
      if |keys| > 0 && !ok {
        return true;
      }
      if !w.listsAgain {
        return true;
      }
      var after := List(p);
      if |after| > 0 {
        assert after[0] in Scope(objects, p);
      }
      left := |after| > 0;
    }

    /** settleArchive: the checks come first, whatever the plan says of the steps before it. */
    method SettleArchive(p: Plan, eventStore: bool, namespace: bool, w: Weather) returns (left: bool)
      modifies this
      ensures (objects, left) == Settle(old(objects), p, eventStore, namespace, w)
    {
      match p
      case NoArchive => return false;
      case Keep => return false;
      case External => return false;
      case Unknown(_) => return true;
      case Remove(_, _, _, _) =>
        if !w.eventStoreReadable {
          return true;
        } else if eventStore {
          return true;
        }
        if w.namespaceReadable && namespace {
          return true;
        } else if !w.namespaceReadable {
          return true;
        }
        left := RemoveInstanceArchive(p, w);
    }
  }
}
