/** `Artifact`: an artifact id plus free-form string metadata, two entries of
    which have a meaning of their own: `alias` (more ids the artifact is also
    known by) and `start-order` (a non-negative start level, absent = 0).

    The id type is left abstract as the type parameter `Id`; the operations
    of `ArtifactId` the class calls (`fromMvnId`, `hashCode`, `compareTo`)
    are passed in as functions. Metadata is a value: a write through the
    live map Java hands out is a function returning the updated artifact.
    A `HashMap` may hold null under a key, so a value is an `Option`. */
module Artifacts {
  import opened Wrappers
  import opened Errors
  import opened JavaInteger
  import JavaString

  /** Metadata key holding a comma-separated list of alias coordinates. */
  const KeyAlias: string := "alias"

  /** Metadata key holding the start order as a decimal number. */
  const KeyStartOrder: string := "start-order"

  /** Appended to an alias that names no version. */
  const DefaultVersionSuffix: string := ":0.0.0"

  const NullIdMessage: string := "id must not be null."

  /** The metadata map; `None` is a null stored under a key. */
  type Metadata = map<string, Option<string>>

  datatype Artifact<Id> = Artifact(id: Id, metadata: Metadata)

  /** `Map.get(key)`: null both for a missing key and for a null value. */
  function Get(m: Metadata, key: string): (v: Option<string>)
    ensures v.Some? <==> key in m && m[key].Some?
    ensures v.Some? ==> m[key] == v
  {
    if key in m then m[key] else None
  }

  /** `new Artifact(id)`: a null id is refused; otherwise the metadata
      starts empty. */
  function New<Id>(id: Option<Id>): (r: Result<Artifact<Id>, Error>)
    ensures r.Success? <==> id.Some?
    ensures r.Failure? ==> r.error == IllegalArgument(NullIdMessage)
    ensures r.Success? ==> r.value.id == id.value && r.value.metadata == map[]
  {
    match id
    case None => Failure(IllegalArgument(NullIdMessage))
    case Some(i) => Success(Artifact(i, map[]))
  }

  // ---------------------------------------------------------------------
  // Aliases

  /** One alias entry as handed to `ArtifactId.fromMvnId`: trimmed, and
      given version 0.0.0 when it holds at most one ':'. */
  function NormalizeAlias(entry: string): (r: string)
    ensures var t := JavaString.Trim(entry);
            r == if JavaString.AtMostOnce(t, ':') then t + DefaultVersionSuffix else t
  {
    var t := JavaString.Trim(entry);
    JavaString.FirstIsLastIffAtMostOnce(t, ':');
    if JavaString.IndexOf(t, ':') == JavaString.LastIndexOf(t, ':') then t + DefaultVersionSuffix else t
  }

  /** `ArtifactId.fromMvnId` applied to the normalised entry; coordinates it
      refuses raise an error naming them. */
  function ResolveAlias<Id>(parse: string -> Option<Id>, entry: string): (r: Result<Id, Error>)
    ensures r.Success? <==> parse(NormalizeAlias(entry)).Some?
    ensures r.Success? ==> parse(NormalizeAlias(entry)) == Some(r.value)
    ensures r.Failure? ==> r.error == MalformedId(NormalizeAlias(entry))
  {
    var coordinates := NormalizeAlias(entry);
    match parse(coordinates)
    case None => Failure(MalformedId(coordinates))
    case Some(id) => Success(id)
  }

  /** `ResolveAlias` for a given `fromMvnId`, as a function of the entry. */
  function AliasResolver<Id>(parse: string -> Option<Id>): string -> Result<Id, Error> {
    entry => ResolveAlias(parse, entry)
  }

  /** Entry `k` is the first from position `from` on that `resolve` refuses. */
  predicate FirstMalformed<Id>(entries: seq<string>, resolve: string -> Result<Id, Error>, from: nat, k: int) {
    && from <= k < |entries|
    && resolve(entries[k]).Failure?
    && forall j :: from <= j < k ==> resolve(entries[j]).Success?
  }

  /** The entries of the `alias` value, split on ',' as `String.split` does. */
  function AliasEntries<Id>(a: Artifact<Id>): seq<string> {
    match Get(a.metadata, KeyAlias)
    case Some(aliases) => JavaString.Split(aliases, ',')
    case None => []
  }

  /** The ids the resolvable entries from position `from` on denote: the set
      `getAliases` collects when every one of them resolves. */
  function AliasIds<Id>(entries: seq<string>, from: nat, resolve: string -> Result<Id, Error>): set<Id> {
    set j | from <= j < |entries| && resolve(entries[j]).Success? :: resolve(entries[j]).value
  }

  /** The loop of `getAliases` from entry `from` on: every entry resolved,
      the ids collected in a set; the first entry that does not resolve
      aborts the whole call with its error. */
  function CollectAliases<Id>(entries: seq<string>, from: nat, resolve: string -> Result<Id, Error>): (r: Result<set<Id>, Error>)
    requires from <= |entries|
    ensures r.Success? <==> forall j :: from <= j < |entries| ==> resolve(entries[j]).Success?
    ensures r.Success? ==> r.value == AliasIds(entries, from, resolve)
    ensures r.Failure? ==> exists k :: FirstMalformed(entries, resolve, from, k)
                                       && r.error == resolve(entries[k]).error
    decreases |entries| - from
  {
    if from == |entries| then Success({})
    else
      match resolve(entries[from])
      case Failure(e) =>
        assert FirstMalformed(entries, resolve, from, from);
        Failure(e)
      case Success(id) =>
        var rest :- CollectAliases(entries, from + 1, resolve);
        assert AliasIds(entries, from, resolve) == {id} + AliasIds(entries, from + 1, resolve);
        Success({id} + rest)
  }

  /** `getAliases(includeMain)`: the ids of the alias entries, plus the
      artifact's own id when asked for. */
  function GetAliases<Id>(a: Artifact<Id>, includeMain: bool, parse: string -> Option<Id>): (r: Result<set<Id>, Error>)
    ensures r.Success? <==> forall e :: e in AliasEntries(a) ==> ResolveAlias(parse, e).Success?
    ensures r.Success? ==> r.value == (if includeMain then {a.id} else {}) + AliasIds(AliasEntries(a), 0, AliasResolver(parse))
    ensures r.Failure? ==> exists k :: FirstMalformed(AliasEntries(a), AliasResolver(parse), 0, k)
                                       && r.error == MalformedId(NormalizeAlias(AliasEntries(a)[k]))
    ensures Get(a.metadata, KeyAlias).None? ==> r == Success(if includeMain then {a.id} else {})
  {
    var main := if includeMain then {a.id} else {};
    match Get(a.metadata, KeyAlias)
    case Some(aliases) =>
      var ids :- CollectAliases(JavaString.Split(aliases, ','), 0, AliasResolver(parse));
      Success(main + ids)
    case None =>
      Success(main)
  }

  /** Repeating an alias entry changes nothing: duplicates collapse. */
  lemma DuplicateAliasCollapses<Id>(entries: seq<string>, e: string, resolve: string -> Result<Id, Error>)
    requires e in entries
    ensures CollectAliases(entries + [e], 0, resolve) == CollectAliases(entries, 0, resolve)
  {
    var longer := entries + [e];
    var r, r' := CollectAliases(longer, 0, resolve), CollectAliases(entries, 0, resolve);
    var i :| 0 <= i < |entries| && entries[i] == e;
    assert forall j :: 0 <= j < |entries| ==> longer[j] == entries[j];
    if r.Success? {
      assert AliasIds(longer, 0, resolve) == AliasIds(entries, 0, resolve);
    } else {
      var k :| FirstMalformed(longer, resolve, 0, k) && r.error == resolve(longer[k]).error;
      var k' :| FirstMalformed(entries, resolve, 0, k') && r'.error == resolve(entries[k']).error;
      assert FirstMalformed(longer, resolve, 0, k');
      assert k == k';
    }
  }

  // ---------------------------------------------------------------------
  // Start order

  /** `getStartOrder()`: 0 when no start order is stored (or null is);
      otherwise the stored text parsed by `Integer.parseInt`, which must not
      be negative. */
  function GetStartOrder<Id>(a: Artifact<Id>): (r: Result<Int32, Error>)
    ensures Get(a.metadata, KeyStartOrder).None? ==> r == Success(0)
    ensures r.Success? ==> r.value >= 0
    ensures Get(a.metadata, KeyStartOrder).Some? ==>
              var order := Get(a.metadata, KeyStartOrder).value;
              && (!IsDecimal(order) ==> r == Failure(NumberFormat(order)))
              && (IsDecimal(order) && 0 <= SignedValue(order) <= MaxValue ==> r == Success(SignedValue(order)))
              && (IsDecimal(order) && MinValue <= SignedValue(order) < 0 ==> r.Failure? && r.error.IllegalState?)
              && (IsDecimal(order) && !(MinValue <= SignedValue(order) <= MaxValue) ==> r == Failure(NumberFormat(order)))
  {
    match Get(a.metadata, KeyStartOrder)
    case Some(order) =>
      var startOrder :- ParseInt(order);
      if startOrder < 0 then Failure(IllegalState("Start order must be >= 0 but is " + order))
      else Success(startOrder)
    case None =>
      Success(0)
  }

  /** `m` and `m'` agree on every key but `key`. */
  ghost predicate SameOutside(m: Metadata, m': Metadata, key: string) {
    forall k :: k != key ==> (k in m <==> k in m') && (k in m ==> m[k] == m'[k])
  }

  /** `setStartOrder(n)`: a negative n is refused; 0 removes the entry and a
      positive n stores its decimal form. No other entry changes. */
  function SetStartOrder<Id>(a: Artifact<Id>, n: Int32): (r: Result<Artifact<Id>, Error>)
    ensures r.Success? <==> n >= 0
    ensures r.Failure? ==> r.error.IllegalArgument?
    ensures r.Success? ==> r.value.id == a.id && SameOutside(a.metadata, r.value.metadata, KeyStartOrder)
    ensures r.Success? ==> (KeyStartOrder in r.value.metadata <==> n > 0)
    ensures r.Success? && n > 0 ==> r.value.metadata[KeyStartOrder].Some?
                                     && IsCanonicalNat(r.value.metadata[KeyStartOrder].value)
  {
    if n < 0 then Failure(IllegalArgument("Start order must be >= 0 but is " + ShowInt(n)))
    else if n == 0 then Success(a.(metadata := a.metadata - {KeyStartOrder}))
    else Success(a.(metadata := a.metadata[KeyStartOrder := Some(ShowInt(n))]))
  }

  /** Writing a start order and reading it back gives the number written. */
  lemma StartOrderRoundTrip<Id>(a: Artifact<Id>, n: Int32)
    requires n >= 0
    ensures SetStartOrder(a, n).Success?
    ensures GetStartOrder(SetStartOrder(a, n).value) == Success(n)
  {
    if n > 0 {
      ParseShowRoundTrip(n);
    }
  }

  /** The stored start order is in the form `setStartOrder` writes: the
      decimal digits of a positive number, without leading zeros. */
  predicate IsCanonicalStartOrder(stored: string) {
    IsCanonicalNat(stored) && stored[0] != '0'
  }

  /** `setStartOrder(getStartOrder())` leaves the metadata as it was exactly
      when the start order is absent or stored in canonical form ("007",
      "+7" and "0" are rewritten, and a stored null is removed). */
  lemma StartOrderRewriteUnchanged<Id>(a: Artifact<Id>)
    requires GetStartOrder(a).Success?
    ensures SetStartOrder(a, GetStartOrder(a).value) == Success(a) <==>
              || KeyStartOrder !in a.metadata
              || (a.metadata[KeyStartOrder].Some? && IsCanonicalStartOrder(a.metadata[KeyStartOrder].value))
  {
    var n := GetStartOrder(a).value;
    var r := SetStartOrder(a, n);
    if KeyStartOrder !in a.metadata {
      assert a.metadata - {KeyStartOrder} == a.metadata;
    } else if a.metadata[KeyStartOrder].None? {
      assert KeyStartOrder !in r.value.metadata;
    } else {
      var stored := a.metadata[KeyStartOrder].value;
      if IsCanonicalStartOrder(stored) {
        assert IsDigit(stored[0]);
        LeadingDigitPositive(stored);
        ShowDigitsValue(stored);
        assert a.metadata[KeyStartOrder := Some(ShowInt(n))] == a.metadata;
      } else if n == 0 {
        assert KeyStartOrder !in r.value.metadata;
      } else {
        assert r.value.metadata[KeyStartOrder] == Some(ShowNat(n));
      }
    }
  }

  // ---------------------------------------------------------------------
  // Copy, equality, hashing, ordering

  /** `copy(newId)`: a new artifact under `newId` holding the same metadata;
      a null id is refused as in the constructor. */
  function Copy<Id>(a: Artifact<Id>, newId: Option<Id>): (r: Result<Artifact<Id>, Error>)
    ensures r.Success? <==> newId.Some?
    ensures r.Failure? ==> r.error == IllegalArgument(NullIdMessage)
    ensures r.Success? ==> r.value.id == newId.value && r.value.metadata == a.metadata
  {
    var copied :- New(newId);
    Success(copied.(metadata := a.metadata))
  }

  /** `equals(obj)`: null is unequal; otherwise the ids decide. */
  function Equals<Id(==)>(a: Artifact<Id>, obj: Option<Artifact<Id>>): bool {
    obj.Some? && a.id == obj.value.id
  }

  /** `hashCode()`: the id's hash. */
  function HashCode<Id>(a: Artifact<Id>, idHash: Id -> int): int {
    idHash(a.id)
  }

  /** `compareTo(o)`: the ids' order; a null `o` is dereferenced and throws. */
  function CompareTo<Id>(a: Artifact<Id>, o: Option<Artifact<Id>>, idCompare: (Id, Id) -> int): (r: Result<int, Error>)
    ensures r.Failure? <==> o.None?
    ensures r.Failure? ==> r.error == NullPointer
    ensures r.Success? ==> r.value == idCompare(a.id, o.value.id)
  {
    match o
    case None => Failure(NullPointer)
    case Some(other) => Success(idCompare(a.id, other.id))
  }

  /** Equality, hashing and ordering look at the id only: two artifacts
      with the same id and any metadata are equal, hash alike and compare
      as the ids do. */
  lemma IdentityIgnoresMetadata<Id>(id: Id, m: Metadata, m': Metadata,
                                        idHash: Id -> int, idCompare: (Id, Id) -> int)
    ensures Equals(Artifact(id, m), Some(Artifact(id, m')))
    ensures HashCode(Artifact(id, m), idHash) == HashCode(Artifact(id, m'), idHash)
    ensures CompareTo(Artifact(id, m), Some(Artifact(id, m')), idCompare) == Success(idCompare(id, id))
  {
  }

  /** Artifacts are equal exactly when their ids are, and equal artifacts
      hash alike; so equality is an equivalence. */
  lemma EqualsIffSameId<Id>(a: Artifact<Id>, b: Artifact<Id>, idHash: Id -> int)
    ensures Equals(a, Some(b)) <==> a.id == b.id
    ensures Equals(a, Some(b)) ==> HashCode(a, idHash) == HashCode(b, idHash)
    ensures Equals(a, Some(b)) <==> Equals(b, Some(a))
    ensures !Equals(a, None)
  {
  }

  /** With an id order that is 0 exactly on equal ids, `compareTo` is 0
      exactly on equal artifacts. */
  lemma CompareToConsistentWithEquals<Id>(a: Artifact<Id>, b: Artifact<Id>, idCompare: (Id, Id) -> int)
    requires idCompare(a.id, b.id) == 0 <==> a.id == b.id
    ensures CompareTo(a, Some(b), idCompare) == Success(0) <==> Equals(a, Some(b))
  {
  }

  /** A fresh artifact has start order 0 and, unless its own id is asked
      for, no aliases. */
  lemma NewArtifactDefaults<Id>(id: Id, includeMain: bool, parse: string -> Option<Id>)
    ensures GetStartOrder(New(Some(id)).value) == Success(0)
    ensures GetAliases(New(Some(id)).value, includeMain, parse) == Success(if includeMain then {id} else {})
  {
  }

  /** A null stored under `start-order` or `alias` reads as if the key were
      absent; removing such an entry changes neither reading. */
  lemma NullValueReadsAsAbsent<Id>(a: Artifact<Id>, includeMain: bool, parse: string -> Option<Id>)
    ensures var b := a.(metadata := a.metadata[KeyStartOrder := None]);
            GetStartOrder(b) == Success(0)
            && GetStartOrder(b) == GetStartOrder(a.(metadata := a.metadata - {KeyStartOrder}))
    ensures var b := a.(metadata := a.metadata[KeyAlias := None]);
            GetAliases(b, includeMain, parse) == Success(if includeMain then {a.id} else {})
            && GetAliases(b, includeMain, parse) == GetAliases(a.(metadata := a.metadata - {KeyAlias}), includeMain, parse)
  {
  }

  /** A copy reads the same start order and aliases as its source; it
      equals the source exactly when the new id is the source's id. */
  lemma CopyKeepsMetadataView<Id>(a: Artifact<Id>, newId: Id, parse: string -> Option<Id>)
    ensures Copy(a, Some(newId)).Success?
    ensures GetStartOrder(Copy(a, Some(newId)).value) == GetStartOrder(a)
    ensures GetAliases(Copy(a, Some(newId)).value, false, parse) == GetAliases(a, false, parse)
    ensures Equals(Copy(a, Some(newId)).value, Some(a)) <==> newId == a.id
  {
    SameMetadataSameView(Copy(a, Some(newId)).value, a, parse);
  }

  /** The start order and the extra aliases are read from the metadata alone. */
  lemma SameMetadataSameView<Id>(a: Artifact<Id>, b: Artifact<Id>, parse: string -> Option<Id>)
    requires a.metadata == b.metadata
    ensures GetStartOrder(a) == GetStartOrder(b)
    ensures GetAliases(a, false, parse) == GetAliases(b, false, parse)
  {
    assert AliasEntries(a) == AliasEntries(b);
  }

  // ---------------------------------------------------------------------
  // A worked alias example: "g:a:1.0, g:b" gives g:a:1.0 and g:b:0.0.0

  /** The set of ids of two resolvable entries. */
  lemma AliasIdsOfPair<Id>(e1: string, e2: string, resolve: string -> Result<Id, Error>)
    requires resolve(e1).Success? && resolve(e2).Success?
    ensures AliasIds([e1, e2], 0, resolve) == {resolve(e1).value, resolve(e2).value}
  {
    var entries := [e1, e2];
    forall id | id in AliasIds(entries, 0, resolve)
      ensures id == resolve(e1).value || id == resolve(e2).value
    {
      var j :| 0 <= j < |entries| && resolve(entries[j]).Success? && id == resolve(entries[j]).value;
      assert entries[j] == e1 || entries[j] == e2;
    }
    assert resolve(entries[0]).value in AliasIds(entries, 0, resolve);
    assert resolve(entries[1]).value in AliasIds(entries, 0, resolve);
  }

  /** An entry with a version passes through unchanged. */
  lemma NormalizeVersionedAlias()
    ensures NormalizeAlias("g:a:1.0") == "g:a:1.0"
  {
    assert JavaString.LeadingTrimmable("g:a:1.0") == 0;
    assert JavaString.TrailingTrimmable("g:a:1.0") == 0;
    assert JavaString.Trim("g:a:1.0") == "g:a:1.0";
    assert "g:a:1.0"[1] == ':' && "g:a:1.0"[3] == ':';
    assert !JavaString.AtMostOnce("g:a:1.0", ':');
  }

  /** A padded entry without a version is trimmed and gets version 0.0.0. */
  lemma NormalizeUnversionedAlias()
    ensures NormalizeAlias(" g:b") == "g:b:0.0.0"
  {
    assert JavaString.LeadingTrimmable("g:b") == 0;
    assert JavaString.LeadingTrimmable(" g:b") == 1;
    assert " g:b"[1..] == "g:b";
    assert JavaString.TrailingTrimmable("g:b") == 0;
    assert JavaString.Trim(" g:b") == "g:b";
    assert JavaString.IndexOf("g:b", ':') == 1;
    assert JavaString.LastIndexOf("g:b", ':') == 1;
    JavaString.FirstIsLastIffAtMostOnce("g:b", ':');
    assert "g:b" + DefaultVersionSuffix == "g:b:0.0.0";
  }

  /** A stand-in for `fromMvnId` that takes every text as an id of its own. */
  function ParseVerbatim(coordinates: string): Option<string> {
    Some(coordinates)
  }

  /** The alias value splits into its two entries, the second still padded. */
  lemma SplitAliasExample()
    ensures JavaString.Split("g:a:1.0, g:b", ',') == ["g:a:1.0", " g:b"]
  {
    assert "g:a:1.0, g:b" == "g:a:1.0" + [','] + " g:b";
    JavaString.SplitTwoPieces("g:a:1.0", " g:b", ',');
  }

  /** With the verbatim parser, an entry resolves to its normalised form. */
  lemma ResolveVerbatim(entry: string)
    ensures AliasResolver(ParseVerbatim)(entry) == Success(NormalizeAlias(entry))
  {
  }

  /** ... and so every entry resolves. */
  lemma VerbatimResolvesAll()
    ensures forall e :: ResolveAlias(ParseVerbatim, e).Success?
  {
    forall e ensures ResolveAlias(ParseVerbatim, e).Success? {
      ResolveVerbatim(e);
    }
  }

  /** When every entry resolves, `getAliases` is the set of resolved ids. */
  lemma AliasesWhenAllResolve<Id>(a: Artifact<Id>, includeMain: bool, parse: string -> Option<Id>, ids: set<Id>)
    requires forall e :: ResolveAlias(parse, e).Success?
    requires AliasIds(AliasEntries(a), 0, AliasResolver(parse)) == ids
    ensures GetAliases(a, includeMain, parse) == Success((if includeMain then {a.id} else {}) + ids)
  {
  }

  /** The ids the example's alias value denotes. */
  lemma AliasExampleIds(a: Artifact<string>)
    requires a.metadata == map[KeyAlias := Some("g:a:1.0, g:b")]
    ensures AliasEntries(a) == ["g:a:1.0", " g:b"]
    ensures AliasIds(AliasEntries(a), 0, AliasResolver(ParseVerbatim)) == {"g:a:1.0", "g:b:0.0.0"}
  {
    assert AliasEntries(a) == ["g:a:1.0", " g:b"] by {
      assert Get(a.metadata, KeyAlias) == Some("g:a:1.0, g:b");
      SplitAliasExample();
    }
    var resolve := AliasResolver(ParseVerbatim);
    NormalizeVersionedAlias();
    NormalizeUnversionedAlias();
    ResolveVerbatim("g:a:1.0");
    ResolveVerbatim(" g:b");
    AliasIdsOfPair("g:a:1.0", " g:b", resolve);
  }

  /** `alias = "g:a:1.0, g:b"` yields exactly {g:a:1.0, g:b:0.0.0}, plus
      the artifact's own id when that is asked for. */
  lemma AliasExample(a: Artifact<string>, includeMain: bool)
    requires a.metadata == map[KeyAlias := Some("g:a:1.0, g:b")]
    ensures GetAliases(a, includeMain, ParseVerbatim)
            == Success((if includeMain then {a.id} else {}) + {"g:a:1.0", "g:b:0.0.0"})
  {
    AliasExampleIds(a);
    VerbatimResolvesAll();
    AliasesWhenAllResolve(a, includeMain, ParseVerbatim, {"g:a:1.0", "g:b:0.0.0"});
  }
}
