/**
 * The response's header wrapper, as values: the wrapped store together with
 * the `contentTypeSet` flag that every mutation through the wrapper keeps up
 * to date. The flag rules are those of the code, not an idealised invariant:
 * `SetDate` bypasses the flag and `Copy` can raise it but never lowers it.
 */
module ContentTypeTracking {
  import opened HeaderStore

  const CONTENT_TYPE: string := "Content-Type"

  predicate IsContentType(name: string) {
    NameEquals(name, CONTENT_TYPE)
  }

  datatype Tracked = Tracked(store: seq<Header>, contentTypeSet: bool)
  {
    /** add(name, value) */
    function Add(name: string, value: string): (r: Tracked) {
      Tracked(Append(store, name, value), contentTypeSet || IsContentType(name))
    }

    /** set(name, value) */
    function Set(name: string, value: string): (r: Tracked) {
      Tracked(Replace(store, name, value), contentTypeSet || IsContentType(name))
    }

    /** setDate(name, date): the store is updated but the flag is not looked at. */
    function SetDate(name: string, date: string): (r: Tracked) {
      Tracked(Replace(store, name, date), contentTypeSet)
    }

    /** set(name, values) */
    function SetValues(name: string, values: seq<string>): (r: Tracked) {
      Tracked(ReplaceAll(store, name, values), contentTypeSet || IsContentType(name))
    }

    /** remove(name) */
    function Remove(name: string): (r: Tracked) {
      Tracked(HeaderStore.Remove(store, name), if IsContentType(name) then false else contentTypeSet)
    }

    /** clear() */
    function Clear(): (r: Tracked) {
      Tracked([], false)
    }

    /** copy(other): the store takes every line of `other`; the flag is raised if `other` has a content type. */
    function Copy(other: seq<Header>): (r: Tracked) {
      Tracked(store + other, contentTypeSet || Contains(other, CONTENT_TYPE))
    }
  }

  /** The flag says exactly whether a Content-Type line is present. */
  predicate Accurate(t: Tracked) {
    t.contentTypeSet == Contains(t.store, CONTENT_TYPE)
  }

  /**
   * add, set(name, value), remove, clear and copy keep an accurate flag
   * accurate, whatever name and value they are given.
   */
  lemma {:induction false} FlagStaysAccurate(t: Tracked, name: string, value: string, copied: seq<Header>)
    requires Accurate(t)
    ensures Accurate(t.Add(name, value))
    ensures Accurate(t.Set(name, value))
    ensures Accurate(t.Remove(name))
    ensures Accurate(t.Clear())
    ensures Accurate(t.Copy(copied))
  {
    ContainsAfterOperations(t.store, name, value, [], copied, CONTENT_TYPE);
  }

  /** set(name, values) keeps the flag accurate unless it empties Content-Type. */
  lemma {:induction false} SetValuesAccuracy(t: Tracked, name: string, values: seq<string>)
    requires Accurate(t)
    ensures Accurate(t.SetValues(name, values)) <==> !(IsContentType(name) && values == [])
  {
    ContainsAfterOperations(t.store, name, "", values, [], CONTENT_TYPE);
  }

  /** setDate on Content-Type stores a content type while the flag stays down. */
  lemma {:induction false} SetDateLeavesFlagDown(t: Tracked, date: string)
    requires !t.contentTypeSet
    ensures Contains(t.SetDate(CONTENT_TYPE, date).store, CONTENT_TYPE)
    ensures !t.SetDate(CONTENT_TYPE, date).contentTypeSet
    ensures !Accurate(t.SetDate(CONTENT_TYPE, date))
  {
    ContainsAfterOperations(t.store, CONTENT_TYPE, date, [], [], CONTENT_TYPE);
  }

  /**
   * The flag is never lowered by an operation other than remove(Content-Type)
   * and clear: in particular copy only ever raises it.
   */
  lemma FlagOnlyLoweredByRemoveOrClear(t: Tracked, name: string, value: string, values: seq<string>, copied: seq<Header>)
    requires t.contentTypeSet
    ensures t.Add(name, value).contentTypeSet && t.Set(name, value).contentTypeSet
    ensures t.SetDate(name, value).contentTypeSet && t.SetValues(name, values).contentTypeSet
    ensures t.Copy(copied).contentTypeSet
    ensures t.Remove(name).contentTypeSet <==> !IsContentType(name)
    ensures !t.Clear().contentTypeSet
  {
  }

  /** Values seen under any name after each wrapper operation: the store always receives the mutation. */
  lemma {:induction false} StoreReceivesMutation(t: Tracked, name: string, value: string, values: seq<string>,
                                                 copied: seq<Header>, other: string)
    ensures GetAll(t.Add(name, value).store, other)
         == GetAll(t.store, other) + (if NameEquals(name, other) then [value] else [])
    ensures GetAll(t.Set(name, value).store, other)
         == if NameEquals(name, other) then [value] else GetAll(t.store, other)
    ensures GetAll(t.SetDate(name, value).store, other)
         == if NameEquals(name, other) then [value] else GetAll(t.store, other)
    ensures GetAll(t.SetValues(name, values).store, other)
         == if NameEquals(name, other) then values else GetAll(t.store, other)
    ensures GetAll(t.Remove(name).store, other)
         == if NameEquals(name, other) then [] else GetAll(t.store, other)
    ensures GetAll(t.Clear().store, other) == []
    ensures GetAll(t.Copy(copied).store, other) == GetAll(t.store, other) + GetAll(copied, other)
  {
    AppendAddsValue(t.store, name, value, other);
    ReplaceSetsValue(t.store, name, value, other);
    ReplaceAllSetsValues(t.store, name, values, other);
    ValuesAfterRemove(t.store, name, other);
    ValuesOfConcat(t.store, copied, other);
  }
}
