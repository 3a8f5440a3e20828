# NamespaceKey: a verified model of the key order of XmlSchemaClassGenerator

`NamespaceKey` is an immutable pair of an optional source `Uri` and an XML schema namespace
string. It implements `IComparable<NamespaceKey>`, `IEquatable<NamespaceKey>` and
`IComparable`:

- keys are ordered first by source;
- a null source comes before every non-null source;
- two non-null sources are compared on their scheme, host and path, unescaped, with
  `StringComparison.OrdinalIgnoreCase`;
- remaining ties are broken by an ordinal comparison of the namespace;
- `Equals` means "compares as zero";
- `GetHashCode` hashes the lower-cased compared components, XORed with the namespace's hash.

The model has three modules:

- `Wrappers` (`wrappers.dfy`): `Option`, which stands for a nullable reference.
- `StringComparison` (`string_comparison.dfy`): the framework comparisons the key uses, and
  their order laws.
  - `OrdinalCompare`, on non-null strings, and `NullableOrdinalCompare`, where null comes first.
  - `IgnoreCaseCompare`, which is OrdinalIgnoreCase: it compares the upper-case folds.
  - `ToLower`, which is culture-sensitive.
  - Case mappings cover ASCII letters, the Greek sigma (final 'ς' and medial 'σ' both
    upper-case to 'Σ'), and the Turkish dotted and dotless I.
- `NamespaceKeys` (`namespace_key.dfy`): the key, its comparison, its equality, its hash, the
  object overloads, and the lemmas.
  - The datatype `NamespaceKey(source, xmlSchemaNamespace)`, built by `Create`, models the
    constructor at `XmlSchemaClassGenerator/NamespaceKey.cs:17-21`. Both properties have private
    setters, so the object is a value.
  - An absolute `Uri` is given as its already-unescaped components.
  - `ComparedComponents` is what `GetComponents(Host | Scheme | Path, Unescaped)` yields:
    `scheme + "://" + host + path`.
  - The source throws in three places: on a null `other`, on a failed cast, and on a null
    namespace in the hash. Each is a `Throws(...)` result, not a precondition.
  - The current culture and `String.GetHashCode` are not fixed by the code. Both are
    parameters of the hash: a `Culture`, and a function `string -> bv32`. The XOR is on 32 bits.

## Model

| member | source | states |
|---|---|---|
| `StringComparison.OrdinalCompare` | XmlSchemaClassGenerator/NamespaceKey.cs:42 | Ordinal string comparison gives a sign, and 0 exactly when the strings are identical. |
| `StringComparison.NullableOrdinalCompare` | XmlSchemaClassGenerator/NamespaceKey.cs:42-43 | `string.Compare(.., Ordinal)` with nulls: 0 exactly when both are null or identical; null sorts before any string. |
| `StringComparison.OrdinalAntisymmetric` | XmlSchemaClassGenerator/NamespaceKey.cs:42 | Swapping the arguments of the ordinal comparison negates it. |
| `StringComparison.OrdinalTransitive` | XmlSchemaClassGenerator/NamespaceKey.cs:42 | The ordinal "not after" relation is transitive. |
| `StringComparison.NullableOrdinalAntisymmetric` | XmlSchemaClassGenerator/NamespaceKey.cs:42 | Swapping the arguments of `string.Compare(.., Ordinal)` negates it, nulls included. |
| `StringComparison.NullableOrdinalTransitive` | XmlSchemaClassGenerator/NamespaceKey.cs:42 | The "not after" relation of `string.Compare(.., Ordinal)` is transitive, nulls included. |
| `StringComparison.UpperChar` | XmlSchemaClassGenerator/NamespaceKey.cs:38 | The per-character fold of OrdinalIgnoreCase: 'a'-'z' become 'A'-'Z', 'ς' and 'σ' become 'Σ', every other character stays. |
| `StringComparison.FoldUpper` | XmlSchemaClassGenerator/NamespaceKey.cs:38 | The OrdinalIgnoreCase fold of a string keeps its length and folds each character. |
| `StringComparison.LowerChar` | XmlSchemaClassGenerator/NamespaceKey.cs:55 | `Char` lower-casing under a culture: 'A'-'Z' go up by 32, except that Turkish sends 'I' to 'ı'; Turkish sends 'İ' to 'i'; 'Σ' becomes 'σ'; lower-case and other characters stay. |
| `StringComparison.ToLower` | XmlSchemaClassGenerator/NamespaceKey.cs:55 | `String.ToLower()` keeps the length and lower-cases each character under the current culture. |
| `StringComparison.IgnoreCaseCompare` | XmlSchemaClassGenerator/NamespaceKey.cs:37-38 | OrdinalIgnoreCase gives 0 exactly when the upper-case folds are identical. |
| `StringComparison.IgnoreCaseEqualOnCaseVariants` | XmlSchemaClassGenerator/NamespaceKey.cs:37-38 | Strings that differ position by position only in ASCII letter case (a letter against its partner 32 code points away) compare equal under OrdinalIgnoreCase. |
| `StringComparison.AsciiIgnoreCaseEqualLowersEqual` | XmlSchemaClassGenerator/NamespaceKey.cs:55 | Under the invariant culture, ASCII strings equal ignoring case lower-case to the same string. |
| `StringComparison.SigmaVariantsLowerApart` | XmlSchemaClassGenerator/NamespaceKey.cs:55 | In every culture, "ς" and "σ" are equal ignoring case but lower-case to different strings. |
| `NamespaceKeys.ComparedComponents` | XmlSchemaClassGenerator/NamespaceKey.cs:11-12 | `GetComponents` of Host, Scheme and Path, unescaped, is the scheme, then "://", then the host, then the path, and nothing else: port, user info, query and fragment are absent. |
| `NamespaceKeys.Create` | XmlSchemaClassGenerator/NamespaceKey.cs:17-21 | The constructor stores both arguments as given, nulls included, and the key is Equal to a key built from the same arguments. |
| `NamespaceKeys.UriCompare` | XmlSchemaClassGenerator/NamespaceKey.cs:11-12 | The URI comparison is 0 exactly when the scheme/host/path strings agree up to case; port, user info, query and fragment play no part. |
| `NamespaceKeys.Compare` | XmlSchemaClassGenerator/NamespaceKey.cs:28-44 | `CompareTo` on a non-null key returns -1, 0 or 1. It is 0 exactly when the sources are both null or agree case-insensitively on the compared components, and the namespaces are equal. |
| `NamespaceKeys.CompareTo` | XmlSchemaClassGenerator/NamespaceKey.cs:28-30 | A null `other` throws a null-reference error. Otherwise the result is the key comparison. |
| `NamespaceKeys.Equals` | XmlSchemaClassGenerator/NamespaceKey.cs:23-26 | `Equals(other)` holds exactly when the keys are equivalent, i.e. when `CompareTo` is 0. A null `other` throws. |
| `NamespaceKeys.EqualsObject` | XmlSchemaClassGenerator/NamespaceKey.cs:46-49 | `Equals(object)` gives the typed `Equals` result for a boxed key. Null throws a null-reference error; another type throws an invalid-cast error. |
| `NamespaceKeys.CompareToObject` | XmlSchemaClassGenerator/NamespaceKey.cs:60-63 | `IComparable.CompareTo(object)` gives the typed `CompareTo` result for a boxed key. Null throws a null-reference error; another type throws an invalid-cast error. |
| `NamespaceKeys.GetHashCode` | XmlSchemaClassGenerator/NamespaceKey.cs:51-58 | The hash throws exactly when the namespace is null. With a null source it is the namespace's hash. |
| `NamespaceKeys.NullSourceSortsFirst` | XmlSchemaClassGenerator/NamespaceKey.cs:30-33 | A key with a null source compares -1 against one with a non-null source, and the reverse compares 1, whatever the namespaces. |
| `NamespaceKeys.DifferingSourcesDecide` | XmlSchemaClassGenerator/NamespaceKey.cs:35-41 | When two sources differ on the compared components, the nonzero URI comparison is the result, whatever the namespaces. |
| `NamespaceKeys.NamespaceBreaksTies` | XmlSchemaClassGenerator/NamespaceKey.cs:42-43 | When both sources are null, or their URI comparison is 0, the result is the ordinal namespace comparison. |
| `NamespaceKeys.IgnoredUriDifferences` | XmlSchemaClassGenerator/NamespaceKey.cs:37-38 | Sources may differ in port, user info, query, fragment, or the case of scheme, host and path. Such keys compare as their namespaces do, and are Equal exactly when the namespaces are equal. |
| `NamespaceKeys.CompareReflexive` | XmlSchemaClassGenerator/NamespaceKey.cs:28-44 | Every key compares 0 with itself. |
| `NamespaceKeys.CompareAntisymmetric` | XmlSchemaClassGenerator/NamespaceKey.cs:28-44 | `b.CompareTo(a)` is the negation of `a.CompareTo(b)`. |
| `NamespaceKeys.EquivalentKeysCompareAlike` | XmlSchemaClassGenerator/NamespaceKey.cs:28-44 | Keys that compare 0 compare the same way against every third key. |
| `NamespaceKeys.CompareTransitive` | XmlSchemaClassGenerator/NamespaceKey.cs:28-44 | The order is transitive: a ≤ b ≤ c gives a ≤ c, and strictly so when either step is strict. |
| `NamespaceKeys.EqualsIsEquivalence` | XmlSchemaClassGenerator/NamespaceKey.cs:23-26 | Typed `Equals` on non-null keys is reflexive, symmetric and transitive. |
| `NamespaceKeys.HashAgreesWithEqualsForAscii` | XmlSchemaClassGenerator/NamespaceKey.cs:51-58 | Under the invariant culture, Equal keys whose compared components are ASCII have equal hash codes (or both throw), for every string hash. |
| `NamespaceKeys.HashDisagreesInEveryCulture` | XmlSchemaClassGenerator/NamespaceKey.cs:55 | In every culture, two Equal keys with paths "/ς" and "/σ" lower-case to different strings, so some string hash gives them different hash codes. |
| `NamespaceKeys.HashDisagreesUnderTurkishCulture` | XmlSchemaClassGenerator/NamespaceKey.cs:55 | Under the Turkish culture, two Equal keys with paths "/I" and "/i" lower-case to different strings, so some string hash gives them different hash codes. |
| `NamespaceKeys.GetHashCodeFixed` | XmlSchemaClassGenerator/NamespaceKey.cs:51-58 | The corrected hash hashes the OrdinalIgnoreCase fold. It throws exactly when the namespace is null. |
| `NamespaceKeys.HashFixedAgreesWithEquals` | XmlSchemaClassGenerator/NamespaceKey.cs:51-58 | Equal keys have equal corrected hash codes, under every culture and every string hash. |
| `NamespaceKeys.EqualsObjectThrows` | XmlSchemaClassGenerator/NamespaceKey.cs:46-49 | `Equals(object)` throws for null and for an object of another type. |
| `NamespaceKeys.EqualsObjectFixed` | XmlSchemaClassGenerator/NamespaceKey.cs:46-49 | The corrected `Equals(object)` agrees with typed `Equals` on keys. It is false for null and for other types. |
| `NamespaceKeys.EqualsObjectFixedSymmetric` | XmlSchemaClassGenerator/NamespaceKey.cs:46-49 | The corrected `Equals(object)` is reflexive and symmetric on keys. |
| `NamespaceKeys.CompareToObjectThrowsOnNull` | XmlSchemaClassGenerator/NamespaceKey.cs:60-63 | `IComparable.CompareTo(null)` throws a null-reference error. |
| `NamespaceKeys.CompareToObjectFixed` | XmlSchemaClassGenerator/NamespaceKey.cs:60-63 | The corrected `IComparable.CompareTo(object)` puts every key after null. It agrees with the typed `CompareTo` on keys and rejects other types with an argument error. |

## Left out

- Parsing and unescaping of URIs by `System.Uri` are not modelled. A source is given by its already-unescaped components.
- Relative URIs are left out. `Uri.Compare` treats them separately from absolute ones, and `GetComponents` on a relative source makes `GetHashCode` throw `InvalidOperationException`; the model's `Uri` is always absolute.
- `ComparedComponents` assumes the hierarchical form `scheme://host/path`. Non-hierarchical URIs, such as `urn:` or `mailto:`, render without `//`; that form is not modelled.
- Compare: returns only the sign (-1, 0 or 1) of `Uri.Compare` and `string.Compare`. The framework may return any negative or positive number. The contract of `IComparable` depends on the sign alone.
- Case mappings cover ASCII letters, the Greek sigma, and the Turkish lower-casing of 'I' and 'İ'. Other Unicode case mappings are left out.
- AsciiIgnoreCaseEqualLowersEqual: requires ASCII strings, because with the sigma mapping the unrestricted statement is false (SigmaVariantsLowerApart).
- HashAgreesWithEqualsForAscii: requires ASCII compared components, because the source's hash disagrees with Equals beyond ASCII in every culture (HashDisagreesInEveryCulture).
- Ordinal comparison is over Dafny characters, which are Unicode scalar values. .NET compares UTF-16 code units, which order differently only for characters beyond U+FFFF against U+E000–U+FFFF.
- Cultures other than the invariant and Turkish ones are not modelled separately. Azerbaijani lower-cases 'I' as Turkish does; most other cultures lower-case ASCII as the invariant culture does.
- `String.GetHashCode` is randomised per process, so the model takes it as a parameter.
- The rest of the repository is not part of this model. It is tutorial and glue code around an RDF library, an XSLT engine and a JSON-schema code generator, whose behaviour lives in those libraries, and it does I/O.

## Findings

| source | as written | input that shows it | evidently intended | confidence | as-written member | corrected member |
|---|---|---|---|---|---|---|
| XmlSchemaClassGenerator/NamespaceKey.cs:55 | The hash lower-cases the compared components with the current culture's `ToLower()`, while equality compares with OrdinalIgnoreCase. | In any culture: sources `http://example.org/ς` and `http://example.org/σ`, same namespace. The keys are Equal, but `ToLower` leaves "/ς" and "/σ" apart, so the hash codes can differ. Under tr-TR, `/I` against `/i` does the same ("/ı" vs "/i"; `HashDisagreesUnderTurkishCulture`). | Equal keys always have equal hash codes: hash the same fold the comparison uses (`StringComparer.OrdinalIgnoreCase`). | not executed; high | `NamespaceKeys.HashDisagreesInEveryCulture` | `NamespaceKeys.HashFixedAgreesWithEquals` |
| XmlSchemaClassGenerator/NamespaceKey.cs:46-49 | `Equals(object)` casts, then calls `CompareTo`. | `k.Equals(null)` throws a null-reference error; `k.Equals("text")` throws an invalid-cast error. | `Object.Equals` returns false for null and for objects of another type, and never throws. | not executed; high | `NamespaceKeys.EqualsObjectThrows` | `NamespaceKeys.EqualsObjectFixed` |
| XmlSchemaClassGenerator/NamespaceKey.cs:60-63 | `IComparable.CompareTo(object)` casts, then dereferences `other.Source`. | `k.CompareTo((object)null)` throws a null-reference error. | `IComparable` places every instance after null, so the result should be positive. | not executed; high | `NamespaceKeys.CompareToObjectThrowsOnNull` | `NamespaceKeys.CompareToObjectFixed` |
