/** `Prototype`: a reference to a base feature, by artifact id or by URL,
    together with what to strip from it when it is applied: configurations,
    bundles, framework properties, whole extensions, and single artifacts of
    an extension.

    The two nullable fields `id` and `url` of the Java class become the sum
    type `Identity`, so "exactly one of them is set" holds by construction.
    A URL is its string form. The removal collections are values; a caller
    appending through one of the live accessors is `AddRemoval`. */
module Prototypes {
  import opened Wrappers
  import opened Errors
  import JavaString

  /** Which base feature the prototype refers to. */
  datatype Identity<Id> = ById(id: Id) | ByUrl(url: string)

  datatype Prototype<Id> = Prototype(
    identity: Identity<Id>,
    configurationRemovals: seq<string>,
    bundleRemovals: seq<Id>,
    frameworkPropertiesRemovals: seq<string>,
    extensionRemovals: seq<string>,
    artifactExtensionRemovals: map<string, seq<Id>>)

  /** All five removal collections are empty. */
  predicate HasNoRemovals<Id>(p: Prototype<Id>) {
    && p.configurationRemovals == []
    && p.bundleRemovals == []
    && p.frameworkPropertiesRemovals == []
    && p.extensionRemovals == []
    && p.artifactExtensionRemovals == map[]
  }

  /** The private constructor: the given identity, every removal collection
      freshly empty. */
  function Fresh<Id>(identity: Identity<Id>): (p: Prototype<Id>)
    ensures p.identity == identity
    ensures HasNoRemovals(p)
  {
    Prototype(identity, [], [], [], [], map[])
  }

  /** `getId()`: the id, or null for a URL-based prototype. */
  function GetId<Id>(p: Prototype<Id>): Option<Id> {
    match p.identity
    case ById(id) => Some(id)
    case ByUrl(_) => None
  }

  /** `getUrl()`: the URL, or null for an id-based prototype. */
  function GetUrl<Id>(p: Prototype<Id>): Option<string> {
    match p.identity
    case ById(_) => None
    case ByUrl(url) => Some(url)
  }

  /** `new Prototype(ArtifactId)`: `Objects.requireNonNull` throws a
      NullPointerException for null; otherwise the id channel is set and the
      URL channel is not. */
  function FromId<Id>(id: Option<Id>): (r: Result<Prototype<Id>, Error>)
    ensures r.Success? <==> id.Some?
    ensures r.Failure? ==> r.error == NullPointer
    ensures r.Success? ==> GetId(r.value) == id && GetUrl(r.value) == None && HasNoRemovals(r.value)
  {
    match id
    case None => Failure(NullPointer)
    case Some(i) => Success(Fresh(ById(i)))
  }

  /** `new Prototype(URL)`: the mirror image of `FromId`. */
  function FromUrl<Id>(url: Option<string>): (r: Result<Prototype<Id>, Error>)
    ensures r.Success? <==> url.Some?
    ensures r.Failure? ==> r.error == NullPointer
    ensures r.Success? ==> GetUrl(r.value) == url && GetId(r.value) == None && HasNoRemovals(r.value)
  {
    match url
    case None => Failure(NullPointer)
    case Some(u) => Success(Fresh(ByUrl(u)))
  }

  /** Every prototype answers exactly one of `getId()` and `getUrl()`. */
  lemma ExactlyOneChannel<Id>(p: Prototype<Id>)
    ensures GetId(p).Some? != GetUrl(p).Some?
  {
  }

  /** `clone()`: the same identity, but NOT the removals: the copy starts
      with all five collections empty, whatever the source holds. */
  function Clone<Id>(p: Prototype<Id>): (c: Prototype<Id>)
    ensures GetId(c) == GetId(p) && GetUrl(c) == GetUrl(p)
    ensures HasNoRemovals(c)
  {
    Fresh(p.identity)
  }

  // ---------------------------------------------------------------------
  // Removals

  /** One entry appended through one of the five live accessors; for the
      map, to the list kept under the extension's name (created empty when
      missing). */
  datatype Removal<Id> =
    | RemoveConfiguration(pid: string)
    | RemoveBundle(bundle: Id)
    | RemoveFrameworkProperty(name: string)
    | RemoveExtension(extension: string)
    | RemoveExtensionArtifact(extension: string, artifact: Id)

  /** The list kept under `ext`, empty when there is none. */
  function ListFor<Id>(m: map<string, seq<Id>>, ext: string): seq<Id> {
    if ext in m then m[ext] else []
  }

  /** Appending `x` through its accessor: the list it belongs to grows by
      `x` at the end, keeping order and duplicates; nothing else changes. */
  function AddRemoval<Id>(p: Prototype<Id>, x: Removal<Id>): (q: Prototype<Id>)
    ensures q.identity == p.identity
    ensures q.configurationRemovals == p.configurationRemovals + ConfigurationsOf([x])
    ensures q.bundleRemovals == p.bundleRemovals + BundlesOf([x])
    ensures q.frameworkPropertiesRemovals == p.frameworkPropertiesRemovals + FrameworkPropertiesOf([x])
    ensures q.extensionRemovals == p.extensionRemovals + ExtensionsOf([x])
    ensures forall ext :: ListFor(q.artifactExtensionRemovals, ext)
                          == ListFor(p.artifactExtensionRemovals, ext) + ExtensionArtifactsOf([x], ext)
    ensures q.artifactExtensionRemovals.Keys
            == p.artifactExtensionRemovals.Keys + (if x.RemoveExtensionArtifact? then {x.extension} else {})
  {
    match x
    case RemoveConfiguration(pid) => p.(configurationRemovals := p.configurationRemovals + [pid])
    case RemoveBundle(bundle) => p.(bundleRemovals := p.bundleRemovals + [bundle])
    case RemoveFrameworkProperty(name) => p.(frameworkPropertiesRemovals := p.frameworkPropertiesRemovals + [name])
    case RemoveExtension(ext) => p.(extensionRemovals := p.extensionRemovals + [ext])
    case RemoveExtensionArtifact(ext, artifact) =>
      var m := p.artifactExtensionRemovals;
      p.(artifactExtensionRemovals := m[ext := ListFor(m, ext) + [artifact]])
  }

  /** The removals appended one after the other. */
  function AddRemovals<Id>(p: Prototype<Id>, xs: seq<Removal<Id>>): Prototype<Id> {
    if xs == [] then p
    else AddRemoval(AddRemovals(p, xs[..|xs| - 1]), xs[|xs| - 1])
  }

  // Reference definitions: the entries of each kind in `xs`, in order.

  function ConfigurationsOf<Id>(xs: seq<Removal<Id>>): seq<string> {
    if xs == [] then []
    else ConfigurationsOf(xs[..|xs| - 1])
         + (if xs[|xs| - 1].RemoveConfiguration? then [xs[|xs| - 1].pid] else [])
  }

  function BundlesOf<Id>(xs: seq<Removal<Id>>): seq<Id> {
    if xs == [] then []
    else BundlesOf(xs[..|xs| - 1])
         + (if xs[|xs| - 1].RemoveBundle? then [xs[|xs| - 1].bundle] else [])
  }

  function FrameworkPropertiesOf<Id>(xs: seq<Removal<Id>>): seq<string> {
    if xs == [] then []
    else FrameworkPropertiesOf(xs[..|xs| - 1])
         + (if xs[|xs| - 1].RemoveFrameworkProperty? then [xs[|xs| - 1].name] else [])
  }

  function ExtensionsOf<Id>(xs: seq<Removal<Id>>): seq<string> {
    if xs == [] then []
    else ExtensionsOf(xs[..|xs| - 1])
         + (if xs[|xs| - 1].RemoveExtension? then [xs[|xs| - 1].extension] else [])
  }

  function ExtensionArtifactsOf<Id>(xs: seq<Removal<Id>>, ext: string): seq<Id> {
    if xs == [] then []
    else ExtensionArtifactsOf(xs[..|xs| - 1], ext)
         + (var x := xs[|xs| - 1];
            if x.RemoveExtensionArtifact? && x.extension == ext then [x.artifact] else [])
  }

  /** The entries of each kind in `xs + [x]` are those in `xs` followed by
      `x` when it is of that kind. */
  lemma KindsOfSnoc<Id>(xs: seq<Removal<Id>>, x: Removal<Id>)
    ensures ConfigurationsOf(xs + [x]) == ConfigurationsOf(xs) + ConfigurationsOf([x])
    ensures BundlesOf(xs + [x]) == BundlesOf(xs) + BundlesOf([x])
    ensures FrameworkPropertiesOf(xs + [x]) == FrameworkPropertiesOf(xs) + FrameworkPropertiesOf([x])
    ensures ExtensionsOf(xs + [x]) == ExtensionsOf(xs) + ExtensionsOf([x])
  {
    assert (xs + [x])[..|xs|] == xs;
    assert [x][..0] == [];
  }

  /** After appending `xs`, each of the four lists holds what it held
      before followed by the entries of its kind in `xs`, in order and with
      duplicates. Identity never changes. */
  lemma {:induction false} AddRemovalsAppendsLists<Id>(p: Prototype<Id>, xs: seq<Removal<Id>>)
    ensures AddRemovals(p, xs).identity == p.identity
    ensures AddRemovals(p, xs).configurationRemovals == p.configurationRemovals + ConfigurationsOf(xs)
    ensures AddRemovals(p, xs).bundleRemovals == p.bundleRemovals + BundlesOf(xs)
    ensures AddRemovals(p, xs).frameworkPropertiesRemovals == p.frameworkPropertiesRemovals + FrameworkPropertiesOf(xs)
    ensures AddRemovals(p, xs).extensionRemovals == p.extensionRemovals + ExtensionsOf(xs)
  {
    if xs != [] {
      var init, x := xs[..|xs| - 1], xs[|xs| - 1];
      AddRemovalsAppendsLists(p, init);
      KindsOfSnoc(init, x);
      assert xs == init + [x];
    }
  }

  /** After appending `xs`, the list under each extension holds what it held
      before followed by that extension's artifacts in `xs`; an extension has
      a list exactly when it had one or `xs` names one of its artifacts. */
  lemma {:induction false} AddRemovalsAppendsPerExtension<Id>(p: Prototype<Id>, xs: seq<Removal<Id>>, ext: string)
    ensures ListFor(AddRemovals(p, xs).artifactExtensionRemovals, ext)
            == ListFor(p.artifactExtensionRemovals, ext) + ExtensionArtifactsOf(xs, ext)
    ensures ext in AddRemovals(p, xs).artifactExtensionRemovals <==>
            ext in p.artifactExtensionRemovals || ExtensionArtifactsOf(xs, ext) != []
  {
    if xs != [] {
      var init, x := xs[..|xs| - 1], xs[|xs| - 1];
      AddRemovalsAppendsPerExtension(p, init, ext);
      var q := AddRemovals(p, init);
      assert AddRemovals(p, xs) == AddRemoval(q, x);
      var last := ExtensionArtifactsOf([x], ext);
      assert last == (if x.RemoveExtensionArtifact? && x.extension == ext then [x.artifact] else []) by {
        assert [x][..0] == [];
      }
      assert ExtensionArtifactsOf(xs, ext) == ExtensionArtifactsOf(init, ext) + last;
      assert ListFor(AddRemoval(q, x).artifactExtensionRemovals, ext)
             == ListFor(q.artifactExtensionRemovals, ext) + last;
    }
  }

  /** A clone forgets every removal: cloning after any appends is cloning
      before them. */
  lemma CloneForgetsRemovals<Id>(p: Prototype<Id>, xs: seq<Removal<Id>>)
    ensures Clone(AddRemovals(p, xs)) == Clone(p)
  {
    AddRemovalsAppendsLists(p, xs);
  }

  // ---------------------------------------------------------------------
  // Equality, hashing, ordering

  /** `equals(obj)`: null is unequal; an id-based prototype never equals a
      URL-based one; otherwise the populated channel decides. */
  function Equals<Id(==)>(p: Prototype<Id>, obj: Option<Prototype<Id>>): bool {
    match obj
    case None => false
    case Some(other) =>
      if p.identity.ByUrl? && other.identity.ById? then false
      else if p.identity.ById? && other.identity.ByUrl? then false
      else if p.identity.ById? then p.identity.id == other.identity.id
      else p.identity.url == other.identity.url
  }

  /** Two prototypes are equal exactly when they name the same base feature
      through the same channel; the removals play no part. */
  lemma EqualsIffSameIdentity<Id>(p: Prototype<Id>, q: Prototype<Id>)
    ensures Equals(p, Some(q)) <==> p.identity == q.identity
    ensures p.identity.ById? != q.identity.ById? ==> !Equals(p, Some(q))
    ensures p.identity.ById? && q.identity.ById? ==> (Equals(p, Some(q)) <==> p.identity.id == q.identity.id)
    ensures p.identity.ByUrl? && q.identity.ByUrl? ==> (Equals(p, Some(q)) <==> p.identity.url == q.identity.url)
    ensures !Equals(p, None)
  {
  }

  /** A clone equals its source, and appending removals never changes what
      a prototype equals. */
  lemma EqualityIgnoresRemovals<Id>(p: Prototype<Id>, xs: seq<Removal<Id>>)
    ensures Equals(Clone(p), Some(p))
    ensures Equals(AddRemovals(p, xs), Some(p))
  {
    AddRemovalsAppendsLists(p, xs);
  }

  /** `hashCode()`: the hash of whichever channel is populated. */
  function HashCode<Id>(p: Prototype<Id>, idHash: Id -> int, urlHash: string -> int): int {
    match p.identity
    case ById(id) => idHash(id)
    case ByUrl(url) => urlHash(url)
  }

  /** Equal prototypes hash alike. */
  lemma HashConsistentWithEquals<Id>(p: Prototype<Id>, q: Prototype<Id>, idHash: Id -> int, urlHash: string -> int)
    requires Equals(p, Some(q))
    ensures HashCode(p, idHash, urlHash) == HashCode(q, idHash, urlHash)
  {
  }

  /** The text `compareTo` takes for this side: the id's Maven URL form, or
      the URL's string form. */
  function OwnKey<Id>(p: Prototype<Id>, toMvnUrl: Id -> string): string {
    match p.identity
    case ById(id) => toMvnUrl(id)
    case ByUrl(url) => url
  }

  /** `compareTo(o)` as written: null compares below everything; for a
      URL-based `o` the other side's text is read from THIS prototype's
      `url`, which is null (a NullPointerException) when this one is
      id-based, and the same text again when it is URL-based. */
  function CompareTo<Id>(p: Prototype<Id>, o: Option<Prototype<Id>>, toMvnUrl: Id -> string): Result<int, Error> {
    match o
    case None => Success(1)
    case Some(other) =>
      var thisUrl := OwnKey(p, toMvnUrl);
      if other.identity.ById? then Success(JavaString.Compare(thisUrl, toMvnUrl(other.identity.id)))
      else if p.identity.ById? then Failure(NullPointer)
      else Success(JavaString.Compare(thisUrl, p.identity.url))
  }

  /** What `compareTo` does as written, case by case: positive against null;
      id against id by the Maven URL texts; URL against id by the texts
      too; URL against URL always 0; id against URL a NullPointerException. */
  lemma CompareToCases<Id>(p: Prototype<Id>, q: Prototype<Id>, toMvnUrl: Id -> string)
    ensures CompareTo(p, None, toMvnUrl).Success? && CompareTo(p, None, toMvnUrl).value > 0
    ensures q.identity.ById? ==>
              CompareTo(p, Some(q), toMvnUrl) == Success(JavaString.Compare(OwnKey(p, toMvnUrl), OwnKey(q, toMvnUrl)))
    ensures p.identity.ByUrl? && q.identity.ByUrl? ==> CompareTo(p, Some(q), toMvnUrl) == Success(0)
    ensures p.identity.ById? && q.identity.ByUrl? ==> CompareTo(p, Some(q), toMvnUrl) == Failure(NullPointer)
  {
    if p.identity.ByUrl? && q.identity.ByUrl? {
      JavaString.CompareZeroIffEqual(p.identity.url, p.identity.url);
    }
  }

  /** The defect made concrete: two prototypes on different URLs are not
      equal, yet `compareTo` calls them the same; and `compareTo` is not
      antisymmetric, since one direction throws and the other answers. */
  lemma CompareToUrlDefect<Id>(toMvnUrl: Id -> string, id: Id)
    ensures var a, b := Fresh<Id>(ByUrl("http://a")), Fresh<Id>(ByUrl("http://b"));
            !Equals(a, Some(b)) && CompareTo(a, Some(b), toMvnUrl) == Success(0)
    ensures var a, c := Fresh<Id>(ByUrl("http://a")), Fresh(ById(id));
            CompareTo(a, Some(c), toMvnUrl).Success? && CompareTo(c, Some(a), toMvnUrl).Failure?
  {
    var a, b := Fresh<Id>(ByUrl("http://a")), Fresh<Id>(ByUrl("http://b"));
    CompareToCases(a, b, toMvnUrl);
  }

  /** `compareTo` with the other side's text read from `o`, as intended. */
  function CompareToFixed<Id>(p: Prototype<Id>, o: Option<Prototype<Id>>, toMvnUrl: Id -> string): (r: Result<int, Error>)
    ensures r.Success?
  {
    match o
    case None => Success(1)
    case Some(other) => Success(JavaString.Compare(OwnKey(p, toMvnUrl), OwnKey(other, toMvnUrl)))
  }

  /** The corrected order never throws, is antisymmetric, and calls two
      URL-based prototypes the same exactly when they are equal. */
  lemma CompareToFixedIsOrder<Id>(p: Prototype<Id>, q: Prototype<Id>, toMvnUrl: Id -> string)
    ensures CompareToFixed(q, Some(p), toMvnUrl).value == -CompareToFixed(p, Some(q), toMvnUrl).value
    ensures p.identity.ByUrl? && q.identity.ByUrl? ==>
              (CompareToFixed(p, Some(q), toMvnUrl) == Success(0) <==> Equals(p, Some(q)))
    ensures Equals(p, Some(q)) ==> CompareToFixed(p, Some(q), toMvnUrl) == Success(0)
  {
    JavaString.CompareAntisymmetric(OwnKey(p, toMvnUrl), OwnKey(q, toMvnUrl));
    JavaString.CompareZeroIffEqual(OwnKey(p, toMvnUrl), OwnKey(q, toMvnUrl));
  }
}
