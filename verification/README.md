# Apache Sling Feature: `Artifact` and `Prototype` in Dafny

A model of the two value types at the heart of the Sling feature model:

- **Artifact**: an artifact id plus string metadata. Two metadata keys carry
  meaning. `alias` is a comma-separated list of Maven coordinates; an entry
  without a version gets `0.0.0`. `start-order` is a non-negative decimal
  number, and an absent key means 0. The model covers construction,
  `getAliases`, `getStartOrder`/`setStartOrder`, `copy`, and the id-only
  `equals`/`hashCode`/`compareTo`.
- **Prototype**: a base feature named by an artifact id or by a URL, plus
  five removal collections. Four are ordered lists: configurations, bundles,
  framework properties and extensions. The fifth maps an extension name to
  the artifacts to remove from that extension. The model covers the
  constructors, `clone`, the accessors and `equals`/`hashCode`/`compareTo`.
  `compareTo` keeps its defect; see Findings.

Files:

| file | module | contents |
|---|---|---|
| `wrappers.dfy` | `Wrappers`, `Errors` | `Option` (Java's null), `Result` (a value or a thrown exception), the exception kinds |
| `java_string.dfy` | `JavaString` | `indexOf`, `lastIndexOf`, `trim`, `split` on one character, `String.compareTo` |
| `java_integer.dfy` | `JavaInteger` | 32-bit `int`, `String.valueOf(int)`, `Integer.parseInt` |
| `artifact.dfy` | `Artifacts` | `Artifact.java` |
| `prototype.dfy` | `Prototypes` | `Prototype.java` |

Modelling choices:

- `ArtifactId` is the type parameter `Id`. The operations the two classes
  call on it are passed in as function parameters: `fromMvnId` as
  `parse: string -> Option<Id>` (`None` for coordinates it refuses),
  `toMvnUrl`, `hashCode` and `compareTo`. Its `equals` is Dafny equality.
- `java.net.URL` is its string form, so `toString()` is the string and
  `equals` is string equality. `hashCode` is a function parameter.
- Objects are values. Every mutating call is a function that returns the
  updated value. `Prototype`'s two nullable fields become the sum type
  `Identity = ById(id) | ByUrl(url)`, so exactly one channel is set by
  construction. Appending through a live removal accessor is `AddRemoval`.
- A thrown exception is `Failure(e)` with `e` naming the Java exception
  class. A null argument is `None`.
- Metadata is a `map<string, Option<string>>`: a Java `HashMap` may hold
  null under a key. `Get` is `Map.get`, which answers null both for a
  missing key and for a stored null; the two readers test only for null.

## Model

| member | source | states |
|---|---|---|
| Artifacts.New | src/main/java/org/apache/sling/feature/Artifact.java:46-58 | a null id fails with IllegalArgumentException; otherwise the artifact has exactly that id and empty metadata |
| Artifacts.Get | src/main/java/org/apache/sling/feature/Artifact.java:87 | `Map.get` answers a value exactly when the key is present with a non-null value, and null both for a missing key and for a stored null |
| Artifacts.NewArtifactDefaults | src/main/java/org/apache/sling/feature/Artifact.java:46-58 | a fresh artifact reads start order 0, and its aliases are empty, or just its own id when that is asked for |
| Artifacts.NormalizeAlias | src/main/java/org/apache/sling/feature/Artifact.java:90-94 | an alias entry is trimmed and gets `:0.0.0` appended exactly when it holds at most one ':'; otherwise it is passed through unchanged |
| Artifacts.ResolveAlias | src/main/java/org/apache/sling/feature/Artifact.java:95 | `fromMvnId` of the normalised entry: succeeds exactly when the parser accepts the normalised coordinates, with that id; otherwise fails naming those coordinates |
| Artifacts.CollectAliases | src/main/java/org/apache/sling/feature/Artifact.java:88-97 | for any way of resolving one entry, the loop from a given index on succeeds iff every remaining entry resolves; the result is then exactly the set of resolved ids; otherwise the error is that of the first entry that does not resolve |
| Artifacts.GetAliases | src/main/java/org/apache/sling/feature/Artifact.java:82-99 | the result is the artifact's own id (when includeMain) together with the ids of all normalised alias entries, and fails iff some entry does not parse, with the first such entry's coordinates; with no `alias` value (absent or null) it is {id} or {} |
| Artifacts.DuplicateAliasCollapses | src/main/java/org/apache/sling/feature/Artifact.java:83-96 | repeating an alias entry does not change the result, because the ids are collected in a set |
| Artifacts.AliasExample | src/main/java/org/apache/sling/feature/Artifact.java:82-98 | `alias = "g:a:1.0, g:b"` gives exactly {g:a:1.0, g:b:0.0.0}, plus the main id when asked for |
| Artifacts.GetStartOrder | src/main/java/org/apache/sling/feature/Artifact.java:109-122 | gives 0 when no value is stored (absent or null); text that is not a decimal integer, or lies outside the int range, fails with NumberFormatException for that text; a negative number fails with IllegalStateException; otherwise gives the number the text denotes |
| Artifacts.SetStartOrder | src/main/java/org/apache/sling/feature/Artifact.java:131-140 | a negative n fails with IllegalArgumentException; 0 removes the key; a positive n stores a non-null canonical decimal; the id and every other key are unchanged |
| Artifacts.StartOrderRoundTrip | src/main/java/org/apache/sling/feature/Artifact.java:109-140 | for every int n >= 0, setting start order n and reading it back gives n |
| Artifacts.StartOrderRewriteUnchanged | src/main/java/org/apache/sling/feature/Artifact.java:109-140 | `setStartOrder(getStartOrder())` leaves the artifact as it was iff the key is absent or holds the canonical decimal of a positive number; a stored null, "0", "007" or "+7" is rewritten |
| Artifacts.Copy | src/main/java/org/apache/sling/feature/Artifact.java:169-175 | a null id fails as in the constructor; otherwise the copy has the new id and exactly the source's metadata |
| Artifacts.CopyKeepsMetadataView | src/main/java/org/apache/sling/feature/Artifact.java:169-175 | a copy reads the same start order and the same aliases as its source, and equals the source iff the new id is the source's id |
| Artifacts.SameMetadataSameView | src/main/java/org/apache/sling/feature/Artifact.java:82-122 | start order and extra aliases are read from the metadata alone: artifacts with equal metadata give the same answers |
| Artifacts.NullValueReadsAsAbsent | src/main/java/org/apache/sling/feature/Artifact.java:87-118 | a null stored under `start-order` reads as start order 0 and one under `alias` as no aliases, exactly as if the key were removed |
| Artifacts.IdentityIgnoresMetadata | src/main/java/org/apache/sling/feature/Artifact.java:142-161 | two artifacts with the same id and any metadata are equal, hash alike, and compare as their ids do |
| Artifacts.EqualsIffSameId | src/main/java/org/apache/sling/feature/Artifact.java:147-161 | equals holds iff the ids are equal; it is symmetric, false for null, and equal artifacts hash alike |
| Artifacts.CompareToConsistentWithEquals | src/main/java/org/apache/sling/feature/Artifact.java:142-145 | given an id order that is 0 exactly on equal ids, compareTo is 0 exactly on equal artifacts |
| Artifacts.Equals | src/main/java/org/apache/sling/feature/Artifact.java:152-161 | equals compares ids only and is false for null; stated by Artifacts.EqualsIffSameId and Artifacts.IdentityIgnoresMetadata |
| Artifacts.HashCode | src/main/java/org/apache/sling/feature/Artifact.java:147-150 | the id's hash, so equal artifacts hash alike; stated by Artifacts.EqualsIffSameId |
| Artifacts.CompareTo | src/main/java/org/apache/sling/feature/Artifact.java:142-145 | a null argument throws NullPointerException; otherwise the ids' order, so 0 exactly on equal artifacts for a consistent id order (Artifacts.CompareToConsistentWithEquals) |
| JavaString.IndexOf | src/main/java/org/apache/sling/feature/Artifact.java:91 | gives -1 iff the character is absent; otherwise gives the position of its first occurrence |
| JavaString.LastIndexOf | src/main/java/org/apache/sling/feature/Artifact.java:91 | gives -1 iff the character is absent; otherwise gives the position of its last occurrence |
| JavaString.FirstIsLastIffAtMostOnce | src/main/java/org/apache/sling/feature/Artifact.java:91 | the test `indexOf(':') == lastIndexOf(':')` holds exactly when ':' occurs at most once |
| JavaString.Trim | src/main/java/org/apache/sling/feature/Artifact.java:90 | the result is a slice of the input; everything cut off is characters <= ' '; the result neither starts nor ends with one |
| JavaString.TrimIdempotent | src/main/java/org/apache/sling/feature/Artifact.java:90 | trimming twice is the same as trimming once |
| JavaString.SplitAll | src/main/java/org/apache/sling/feature/Artifact.java:89 | the pieces contain no separator and joining them with the separator gives back the input |
| JavaString.Split | src/main/java/org/apache/sling/feature/Artifact.java:89 | without a separator the input comes back whole; otherwise the result is the pieces with only trailing empty ones dropped |
| JavaString.SplitTwoPieces | src/main/java/org/apache/sling/feature/Artifact.java:89 | `a + sep + b` splits into exactly [a, b] when neither contains the separator and b is non-empty |
| JavaString.Compare | src/main/java/org/apache/sling/feature/Prototype.java:116 | String.compareTo: 0 exactly on equal strings and antisymmetric; stated by JavaString.CompareZeroIffEqual and JavaString.CompareAntisymmetric |
| JavaString.CompareZeroIffEqual | src/main/java/org/apache/sling/feature/Prototype.java:116 | String.compareTo is 0 exactly on equal strings |
| JavaString.CompareAntisymmetric | src/main/java/org/apache/sling/feature/Prototype.java:116 | swapping the operands of String.compareTo negates the result |
| JavaInteger.ShowNat | src/main/java/org/apache/sling/feature/Artifact.java:138 | the decimal form of n is non-empty ASCII digits with no leading zero, and its digits denote n |
| JavaInteger.ShowInt | src/main/java/org/apache/sling/feature/Artifact.java:138 | String.valueOf(int) starts with '-' iff n < 0, and after the sign it is the canonical digits of abs(n) |
| JavaInteger.ParseInt | src/main/java/org/apache/sling/feature/Artifact.java:113 | succeeds exactly when the text is a decimal integer (an optional sign, then at least one ASCII digit) whose value lies in the int range, and then gives that value; every other input is a NumberFormatException for the input |
| JavaInteger.ParseIntRejects | src/main/java/org/apache/sling/feature/Artifact.java:113 | a character other than a digit, save a sign in front of at least one digit, makes parseInt throw NumberFormatException |
| JavaInteger.ParseIntExamples | src/main/java/org/apache/sling/feature/Artifact.java:113 | "abc", "" and "-" are refused; "-5" gives -5 and "+7" gives 7 |
| JavaInteger.ParseShowRoundTrip | src/main/java/org/apache/sling/feature/Artifact.java:113-138 | Integer.parseInt(String.valueOf(n)) == n for every int n |
| JavaInteger.ShowDigitsValue | src/main/java/org/apache/sling/feature/Artifact.java:113-138 | a canonical digit string is exactly the String.valueOf form of its own value |
| Prototypes.Fresh | src/main/java/org/apache/sling/feature/Prototype.java:45-53 | a freshly built prototype has the given identity and all five removal collections empty |
| Prototypes.FromId | src/main/java/org/apache/sling/feature/Prototype.java:60-62 | a null id fails with NullPointerException; otherwise getId() is the id, getUrl() is null, and there are no removals |
| Prototypes.FromUrl | src/main/java/org/apache/sling/feature/Prototype.java:64-66 | a null URL fails with NullPointerException; otherwise getUrl() is the URL, getId() is null, and there are no removals |
| Prototypes.ExactlyOneChannel | src/main/java/org/apache/sling/feature/Prototype.java:68-71 | every prototype answers exactly one of getId() and getUrl() |
| Prototypes.GetId | src/main/java/org/apache/sling/feature/Prototype.java:82-84 | the id, or null for a URL-based prototype; with getUrl exactly one is set (Prototypes.ExactlyOneChannel, Prototypes.FromId) |
| Prototypes.GetUrl | src/main/java/org/apache/sling/feature/Prototype.java:86-88 | the URL, or null for an id-based prototype; with getId exactly one is set (Prototypes.ExactlyOneChannel, Prototypes.FromUrl) |
| Prototypes.Clone | src/main/java/org/apache/sling/feature/Prototype.java:74-76 | a clone has the same id and URL as the source and all five removal collections empty |
| Prototypes.CloneForgetsRemovals | src/main/java/org/apache/sling/feature/Prototype.java:74-76 | cloning after any removals were appended is the same as cloning before |
| Prototypes.AddRemoval | src/main/java/org/apache/sling/feature/Prototype.java:90-108 | appending through an accessor puts the entry at the end of its own list and leaves identity and the other collections unchanged |
| Prototypes.AddRemovalsAppendsLists | src/main/java/org/apache/sling/feature/Prototype.java:90-104 | after a series of appends, each list is its old contents followed by the entries of its kind, in order and with duplicates |
| Prototypes.AddRemovalsAppendsPerExtension | src/main/java/org/apache/sling/feature/Prototype.java:106-108 | after a series of appends, each extension's list is its old contents followed by that extension's artifacts; the key exists iff it existed before or some artifact was appended for it |
| Prototypes.Equals | src/main/java/org/apache/sling/feature/Prototype.java:124-138 | equal iff same channel and same value, null unequal, removals ignored; stated by Prototypes.EqualsIffSameIdentity and Prototypes.EqualityIgnoresRemovals |
| Prototypes.EqualsIffSameIdentity | src/main/java/org/apache/sling/feature/Prototype.java:125-138 | an id-based prototype never equals a URL-based one; otherwise equal iff the ids, or the URLs, are equal; null is unequal |
| Prototypes.EqualityIgnoresRemovals | src/main/java/org/apache/sling/feature/Prototype.java:125-138 | a clone equals its source, and appending removals does not change what a prototype equals |
| Prototypes.HashConsistentWithEquals | src/main/java/org/apache/sling/feature/Prototype.java:120-122 | equal prototypes hash alike |
| Prototypes.HashCode | src/main/java/org/apache/sling/feature/Prototype.java:119-122 | the hash of whichever channel is set, so equal prototypes hash alike (Prototypes.HashConsistentWithEquals) |
| Prototypes.CompareToCases | src/main/java/org/apache/sling/feature/Prototype.java:111-117 | the result against null is positive; against an id-based o it compares the Maven URL texts; two URL-based prototypes give 0; id-based against URL-based throws NullPointerException |
| Prototypes.CompareTo | src/main/java/org/apache/sling/feature/Prototype.java:110-117 | compareTo as written, defect included; its cases are stated by Prototypes.CompareToCases and the defect by Prototypes.CompareToUrlDefect |
| Prototypes.CompareToUrlDefect | src/main/java/org/apache/sling/feature/Prototype.java:114-116 | two prototypes on different URLs are unequal, yet compareTo returns 0 for them; a URL-based one against an id-based one answers, while the reverse call throws |
| Prototypes.CompareToFixed | src/main/java/org/apache/sling/feature/Prototype.java:111-117 | with o's own URL on the other side, compareTo never throws |
| Prototypes.CompareToFixedIsOrder | src/main/java/org/apache/sling/feature/Prototype.java:111-117 | the corrected order is antisymmetric, gives 0 for equal prototypes, and on two URL-based prototypes is 0 iff they are equal |

## Left out

- `ArtifactId` internals: `fromMvnId`, `toMvnUrl`, `toMvnId`, `hashCode` and `compareTo` are parameters. `ArtifactId.java` is not part of this model.
- `java.net.URL`: its `equals` and `hashCode` may resolve host names, which is I/O. A URL is its string.
- `toString` of both classes: diagnostic text only.
- Concrete hash values: only agreement between hashing and equality is stated.
- Shared mutable views: `getMetadata()` and the five removal accessors hand out the live Java collections. Here they are fields of a value. An edit through them is a record update; the model names only the append (`AddRemoval`). Removing or replacing entries through an accessor is a plain record update and has no member of its own.
- Prototypes.AddRemoval: for the extension map it models one way to write through `getArtifactExtensionRemovals()`, appending to the list under the name. A caller may also `put` a whole list, which is a plain record update.
- The `this == obj` and `getClass()` tests in both `equals` methods: with value semantics and no subclasses, they do not change the answer.
- Thread safety: both classes are single-threaded.
- A null metadata key: `HashMap` admits one, but no member looks it up, so keys are plain strings. Null values are modelled.
- JavaString.Compare: Java compares UTF-16 code units, but a Dafny `char` is a Unicode scalar value. Strings outside the Basic Multilingual Plane may order differently.
- JavaInteger.ParseInt: only ASCII digits are accepted. `Character.digit` also accepts other Unicode decimal digits. Signs, the empty string and 32-bit overflow are modelled.
- JavaString.Trim: strips every character up to U+0020, as `String.trim` does. `strip`-style Unicode whitespace is not involved.
- The javadoc of `Prototype(ArtifactId)` promises an IllegalArgumentException for null. The code calls `Objects.requireNonNull`, which throws NullPointerException. The model follows the code.

## Findings

| source | as written | input that shows it | evidently intended | confidence | as-written member | corrected member |
|---|---|---|---|---|---|---|
| src/main/java/org/apache/sling/feature/Prototype.java:115 | for a URL-based `o`, the other side's text is `url.toString()`, which is this prototype's URL | prototypes on `http://a` and `http://b` compare 0 although they are unequal; an id-based prototype compared with a URL-based one throws NullPointerException | `o.url.toString()` | high; not executed | Prototypes.CompareToUrlDefect | Prototypes.CompareToFixedIsOrder |
