/**
 * DefaultTypeDefinitionProvider: the table that maps a .NET type to the JavaScript type
 * the generated manifest names. Keys are kept in registration order; a lookup takes the
 * LAST key that is the queried type or is assignable from it.
 */
module TypeRegistry {
  import opened Wrappers
  import opened Host

  /** TypeDefinition: the .NET type to render and the JavaScript names that go with it. */
  datatype TypeDefinition = TypeDefinition(
    hostType: HostType,
    jsTypeName: string,
    jsDocTypeName: string,
    jsParseFnSnippet: string,
    jsValidateFnSnippet: string)

  /** One registration: the key type and its descriptor. */
  type Entry = (HostType, TypeDefinition)

  /** A dictionary holds each key once. */
  ghost predicate DistinctKeys(entries: seq<Entry>) {
    forall i, j :: 0 <= i < j < |entries| ==> entries[i].0 != entries[j].0
  }

  /** The lookup's filter: the key is the type itself or the key is assignable from it. */
  predicate Matches(key: HostType, t: HostType, isAssignableFrom: (HostType, HostType) -> bool) {
    key == t || isAssignableFrom(key, t)
  }

  /** Keys.LastOrDefault(Matches): the position of the last matching key, if any. */
  function LastMatch(entries: seq<Entry>, t: HostType, isAssignableFrom: (HostType, HostType) -> bool): (r: Option<nat>)
    ensures r.None? <==> forall i :: 0 <= i < |entries| ==> !Matches(entries[i].0, t, isAssignableFrom)
    ensures r.Some? ==> r.value < |entries| && Matches(entries[r.value].0, t, isAssignableFrom)
    ensures r.Some? ==> forall j :: r.value < j < |entries| ==> !Matches(entries[j].0, t, isAssignableFrom)
  {
    if entries == [] then None
    else if Matches(entries[|entries| - 1].0, t, isAssignableFrom) then Some(|entries| - 1)
    else LastMatch(entries[..|entries| - 1], t, isAssignableFrom)
  }

  /**
   * GetTypeDefinition: the descriptor of the last registered key that matches t;
   * an ArgumentException exactly when no key matches.
   */
  function GetTypeDefinition(entries: seq<Entry>, t: HostType, isAssignableFrom: (HostType, HostType) -> bool)
    : (r: Result<TypeDefinition, Error>)
    ensures r.Err? <==> forall i :: 0 <= i < |entries| ==> !Matches(entries[i].0, t, isAssignableFrom)
    ensures r.Err? ==> r.error == NoTypeDefinition(t)
    ensures r.Ok? ==> exists i :: 0 <= i < |entries| && r.value == entries[i].1
                             && Matches(entries[i].0, t, isAssignableFrom)
                             && forall j :: i < j < |entries| ==> !Matches(entries[j].0, t, isAssignableFrom)
  {
    match LastMatch(entries, t, isAssignableFrom)
    case None => Err(NoTypeDefinition(t))
    case Some(i) => Ok(entries[i].1)
  }

  /** The position of key k, or |entries| when k is not registered. */
  function KeyIndex(entries: seq<Entry>, k: HostType): (i: nat)
    ensures i <= |entries|
    ensures i < |entries| ==> entries[i].0 == k
    ensures forall j :: 0 <= j < i ==> entries[j].0 != k
  {
    if entries == [] then 0
    else if entries[0].0 == k then 0
    else 1 + KeyIndex(entries[1..], k)
  }

  function Define(key: HostType, hostType: HostType, jsType: string, parse: string, validate: string): Entry {
    (key, TypeDefinition(hostType, jsType, jsType, "BackSupport.Parse." + parse, "BackSupport.Validate.Type." + validate))
  }

  const ObjectEntry := Define(ObjectType, ObjectType, "object", "Object", "Object")
  const StringEntry := Define(StringType, StringType, "string", "String", "String")
  const CharEntry := Define(CharType, CharType, "char", "Char", "Char")
  const Int32Entry := Define(Int32Type, Int32Type, "number", "Integer", "Integer")
  const Int64Entry := Define(Int64Type, Int64Type, "number", "Integer", "Integer")
  const DoubleEntry := Define(DoubleType, DoubleType, "number", "Float", "Float")
  const SingleEntry := Define(SingleType, SingleType, "number", "Float", "Float")
  const BooleanEntry := Define(BooleanType, BooleanType, "boolean", "Boolean", "Boolean")
  const DateTimeEntry := Define(DateTimeType, DateTimeType, "date", "DateTime", "DateTime")
  // Nullable<char> is registered with Type = char, so it renders as Char
  const NullableCharEntry := Define(NullableCharType, CharType, "char", "Char", "NullableChar")
  const NullableInt32Entry := Define(NullableInt32Type, NullableInt32Type, "number", "Integer", "NullableInteger")
  const NullableInt64Entry := Define(NullableInt64Type, NullableInt64Type, "number", "Integer", "NullableInteger")
  const NullableDoubleEntry := Define(NullableDoubleType, NullableDoubleType, "number", "Float", "NullableFloat")
  const NullableSingleEntry := Define(NullableSingleType, NullableSingleType, "number", "Float", "NullableFloat")
  const NullableBooleanEntry := Define(NullableBooleanType, NullableBooleanType, "boolean", "Boolean", "NullableBoolean")
  const NullableDateTimeEntry := Define(NullableDateTimeType, NullableDateTimeType, "date", "DateTime", "NullableDateTime")

  /**
   * The table after registering (t, d): a known key keeps its place and gets the new
   * descriptor, a new key goes last (the indexer assignment of a Dictionary that is
   * never shrunk).
   */
  function Upsert(entries: seq<Entry>, t: HostType, d: TypeDefinition): (r: seq<Entry>)
    ensures |entries| <= |r| <= |entries| + 1
    ensures forall i :: 0 <= i < |entries| ==> r[i].0 == entries[i].0
    ensures forall i :: 0 <= i < |entries| && entries[i].0 != t ==> r[i] == entries[i]
    ensures exists i :: 0 <= i < |r| && r[i] == (t, d)
    ensures |r| == |entries| <==> exists i :: 0 <= i < |entries| && entries[i].0 == t
    ensures |r| == |entries| + 1 ==> r[|entries|] == (t, d)
    ensures DistinctKeys(entries) ==> DistinctKeys(r)
  {
    var i := KeyIndex(entries, t);
    if i < |entries| then
      var r := entries[i := (t, d)];
      assert r[i] == (t, d);
      r
    else
      var r := entries + [(t, d)];
      assert r[|entries|] == (t, d);
      r
  }

  /** The sixteen registrations of SetupDefaultTypes, in the order it makes them, object first. */
  const DefaultRegistrations: seq<Entry> := [
    ObjectEntry, StringEntry, CharEntry, Int32Entry, Int64Entry, DoubleEntry, SingleEntry,
    BooleanEntry, DateTimeEntry, NullableCharEntry, NullableInt32Entry, NullableInt64Entry,
    NullableDoubleEntry, NullableSingleEntry, NullableBooleanEntry, NullableDateTimeEntry]

  /** The table after the first n of the registrations regs, made into an empty table. */
  function Registered(regs: seq<Entry>, n: nat): seq<Entry>
    requires n <= |regs|
  {
    if n == 0 then [] else Upsert(Registered(regs, n - 1), regs[n - 1].0, regs[n - 1].1)
  }

  /** The table after the first n default registrations. */
  function DefaultPrefix(n: nat): seq<Entry>
    requires n <= |DefaultRegistrations|
  {
    Registered(DefaultRegistrations, n)
  }

  /** The table SetupDefaultTypes builds. */
  const DefaultEntries: seq<Entry> := DefaultPrefix(|DefaultRegistrations|)

  class DefaultTypeDefinitionProvider {
    var entries: seq<Entry>

    ghost predicate Valid()
      reads this
    {
      DistinctKeys(entries)
    }

    /** The constructor runs SetupDefaultTypes. */
    constructor ()
      ensures Valid() && entries == DefaultEntries
    {
      entries := [];
      new;
      SetupDefaultTypes();
    }

    method SetTypeDefinition(t: HostType, definition: TypeDefinition)
      requires Valid()
      modifies this
      ensures Valid() && entries == Upsert(old(entries), t, definition)
    {
      var i := KeyIndex(entries, t);
      if i < |entries| {
        entries := entries[i := (t, definition)];
      } else {
        entries := entries + [(t, definition)];
      }
    }

    method SetupDefaultTypes()
      requires Valid() && entries == []
      modifies this
      ensures Valid() && entries == DefaultEntries
    {
      assert entries == Registered(DefaultRegistrations, 0);
      SetTypeDefinition(DefaultRegistrations[0].0, DefaultRegistrations[0].1);
      assert entries == DefaultPrefix(1);
      SetTypeDefinition(DefaultRegistrations[1].0, DefaultRegistrations[1].1);
      assert entries == DefaultPrefix(2);
      SetTypeDefinition(DefaultRegistrations[2].0, DefaultRegistrations[2].1);
      assert entries == DefaultPrefix(3);
      SetTypeDefinition(DefaultRegistrations[3].0, DefaultRegistrations[3].1);
      assert entries == DefaultPrefix(4);
      SetTypeDefinition(DefaultRegistrations[4].0, DefaultRegistrations[4].1);
      assert entries == DefaultPrefix(5);
      SetTypeDefinition(DefaultRegistrations[5].0, DefaultRegistrations[5].1);
      assert entries == DefaultPrefix(6);
      SetTypeDefinition(DefaultRegistrations[6].0, DefaultRegistrations[6].1);
      assert entries == DefaultPrefix(7);
      SetTypeDefinition(DefaultRegistrations[7].0, DefaultRegistrations[7].1);
      assert entries == DefaultPrefix(8);
      SetTypeDefinition(DefaultRegistrations[8].0, DefaultRegistrations[8].1);
      assert entries == DefaultPrefix(9);
      SetTypeDefinition(DefaultRegistrations[9].0, DefaultRegistrations[9].1);
      assert entries == DefaultPrefix(10);
      SetTypeDefinition(DefaultRegistrations[10].0, DefaultRegistrations[10].1);
      assert entries == DefaultPrefix(11);
      SetTypeDefinition(DefaultRegistrations[11].0, DefaultRegistrations[11].1);
      assert entries == DefaultPrefix(12);
      SetTypeDefinition(DefaultRegistrations[12].0, DefaultRegistrations[12].1);
      assert entries == DefaultPrefix(13);
      SetTypeDefinition(DefaultRegistrations[13].0, DefaultRegistrations[13].1);
      assert entries == DefaultPrefix(14);
      SetTypeDefinition(DefaultRegistrations[14].0, DefaultRegistrations[14].1);
      assert entries == DefaultPrefix(15);
      SetTypeDefinition(DefaultRegistrations[15].0, DefaultRegistrations[15].1);
      assert entries == DefaultPrefix(16);
    }
  }
}

module TypeRegistryProperties {
  import opened Wrappers
  import opened Host
  import opened TypeRegistry

  /** No two default registrations share a key. */
  lemma RegistrationsDistinct()
    ensures DistinctKeys(DefaultRegistrations)
  {
  }

  /** A key not yet in the table goes after every registered one. */
  lemma UpsertFresh(entries: seq<Entry>, t: HostType, d: TypeDefinition)
    requires forall j :: 0 <= j < |entries| ==> entries[j].0 != t
    ensures Upsert(entries, t, d) == entries + [(t, d)]
  {
  }

  /** Registering distinct keys one by one lists them in registration order. */
  lemma {:induction false} RegisteredDistinct(regs: seq<Entry>, n: nat)
    requires n <= |regs| && DistinctKeys(regs)
    ensures Registered(regs, n) == regs[..n]
  {
    if n > 0 {
      RegisteredDistinct(regs, n - 1);
      var before := regs[..n - 1];
      assert forall j :: 0 <= j < |before| ==> before[j].0 != regs[n - 1].0;
      UpsertFresh(before, regs[n - 1].0, regs[n - 1].1);
      assert before + [regs[n - 1]] == regs[..n];
    }
  }

  /** SetupDefaultTypes registers sixteen distinct keys, so the table lists them in call order. */
  lemma DefaultTable()
    ensures DefaultEntries == DefaultRegistrations
    ensures DistinctKeys(DefaultEntries)
  {
    RegistrationsDistinct();
    RegisteredDistinct(DefaultRegistrations, |DefaultRegistrations|);
  }

  /** A key is the lookup's result when it matches and no later key does. */
  lemma ResolvesAt(entries: seq<Entry>, i: nat, t: HostType, isAssignableFrom: (HostType, HostType) -> bool)
    requires i < |entries| && Matches(entries[i].0, t, isAssignableFrom)
    requires forall j :: i < j < |entries| ==> !Matches(entries[j].0, t, isAssignableFrom)
    ensures GetTypeDefinition(entries, t, isAssignableFrom) == Ok(entries[i].1)
  {
    var r := GetTypeDefinition(entries, t, isAssignableFrom);
    var k :| 0 <= k < |entries| && r.value == entries[k].1 && Matches(entries[k].0, t, isAssignableFrom)
             && forall j :: k < j < |entries| ==> !Matches(entries[j].0, t, isAssignableFrom);
    assert k == i;
  }

  /** A matching key resolves no earlier than its own registration: later registrations override. */
  lemma ResolvesNoEarlier(entries: seq<Entry>, i: nat, t: HostType, isAssignableFrom: (HostType, HostType) -> bool)
    requires i < |entries| && Matches(entries[i].0, t, isAssignableFrom)
    ensures LastMatch(entries, t, isAssignableFrom).Some? && LastMatch(entries, t, isAssignableFrom).value >= i
  {
  }

  /**
   * After SetTypeDefinition(t, d), t resolves to d unless a key registered after t's
   * place is assignable from t.
   */
  lemma {:induction false} SetThenGet(entries: seq<Entry>, t: HostType, d: TypeDefinition,
                                      isAssignableFrom: (HostType, HostType) -> bool)
    requires DistinctKeys(entries)
    requires forall j :: KeyIndex(entries, t) < j < |entries| ==> !isAssignableFrom(entries[j].0, t)
    ensures GetTypeDefinition(Upsert(entries, t, d), t, isAssignableFrom) == Ok(d)
  {
    var r := Upsert(entries, t, d);
    var i := KeyIndex(entries, t);
    if i < |entries| {
      assert r == entries[i := (t, d)];
      forall j | i < j < |r|
        ensures !Matches(r[j].0, t, isAssignableFrom)
      {
        assert r[j] == entries[j];
        assert entries[j].0 != entries[i].0;
      }
      ResolvesAt(r, i, t, isAssignableFrom);
    } else {
      assert r == entries + [(t, d)];
      ResolvesAt(r, i, t, isAssignableFrom);
    }
  }

  /** object is registered first and is assignable from every type, so the default table never throws. */
  lemma DefaultNeverFails(t: HostType, isAssignableFrom: (HostType, HostType) -> bool)
    requires isAssignableFrom(ObjectType, t)
    ensures GetTypeDefinition(DefaultEntries, t, isAssignableFrom).Ok?
  {
    DefaultTable();
    assert Matches(DefaultEntries[0].0, t, isAssignableFrom);
  }

  /** A specific registration beats the object catch-all: System.Int32 never gets the object descriptor. */
  lemma Int32BeatsObject(isAssignableFrom: (HostType, HostType) -> bool)
    ensures GetTypeDefinition(DefaultEntries, Int32Type, isAssignableFrom).Ok?
    ensures GetTypeDefinition(DefaultEntries, Int32Type, isAssignableFrom) != Ok(ObjectEntry.1)
  {
    DefaultTable();
    ResolvesNoEarlier(DefaultEntries, 3, Int32Type, isAssignableFrom);
    var m := LastMatch(DefaultEntries, Int32Type, isAssignableFrom).value;
    assert GetTypeDefinition(DefaultEntries, Int32Type, isAssignableFrom) == Ok(DefaultRegistrations[m].1);
    NotObjectDescriptor(m);
  }

  /** Only the first registration carries the object descriptor. */
  lemma NotObjectDescriptor(k: nat)
    requires 0 < k < |DefaultRegistrations|
    ensures DefaultRegistrations[k].1 != ObjectEntry.1
  {
    assert DefaultRegistrations[k].1.hostType != ObjectType;
  }

  /**
   * .NET answers typeof(int?).IsAssignableFrom(typeof(int)) with true, so when no later
   * Nullable key accepts System.Int32 an Int32 property resolves to the Nullable<int>
   * descriptor, registered after the Int32 one.
   */
  lemma Int32ResolvesToNullable(isAssignableFrom: (HostType, HostType) -> bool)
    requires isAssignableFrom(NullableInt32Type, Int32Type)
    requires forall j :: 10 < j < |DefaultRegistrations| ==> !isAssignableFrom(DefaultRegistrations[j].0, Int32Type)
    ensures GetTypeDefinition(DefaultEntries, Int32Type, isAssignableFrom) == Ok(NullableInt32Entry.1)
  {
    DefaultTable();
    ResolvesNoEarlier(DefaultEntries, 10, Int32Type, isAssignableFrom);
  }
}
