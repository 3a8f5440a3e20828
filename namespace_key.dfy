/**
 NamespaceKey: an immutable pair of an optional source URI and an XML schema namespace,
 ordered first by source (null first, then the scheme, host and path compared
 unescaped and ignoring case) and then by the namespace, ordinally.
 Equality is "compares as zero"; the hash is meant to agree with it.
 */
module NamespaceKeys {

  import opened Wrappers
  import opened StringComparison

  /** An absolute URI, already parsed and unescaped into its components. */
  datatype Uri = Uri(scheme: string, userInfo: string, host: string, port: int,
                     path: string, query: string, fragment: string)

  /** Uri.GetComponents(Host | Scheme | Path, Unescaped): port, user info, query
      and fragment do not take part. */
  function ComparedComponents(u: Uri): (s: string)
    ensures |s| == |u.scheme| + 3 + |u.host| + |u.path|
    ensures s[..|u.scheme|] == u.scheme && s[|u.scheme|..|u.scheme| + 3] == "://"
    ensures s[|u.scheme| + 3..|u.scheme| + 3 + |u.host|] == u.host
    ensures s[|s| - |u.path|..] == u.path
  {
    u.scheme + "://" + u.host + u.path
  }

  /** Uri.Compare(a, b, Host | Scheme | Path, Unescaped, OrdinalIgnoreCase). */
  function UriCompare(a: Uri, b: Uri): (r: int)
    ensures -1 <= r <= 1
    ensures r == 0 <==> FoldUpper(ComparedComponents(a)) == FoldUpper(ComparedComponents(b))
  {
    IgnoreCaseCompare(ComparedComponents(a), ComparedComponents(b))
  }

  /** The key. The datatype constructor plays the role of the source's constructor:
      both properties are set once and never change. */
  datatype NamespaceKey = NamespaceKey(source: Option<Uri>, xmlSchemaNamespace: Option<string>)

  /** new NamespaceKey(source, xmlSchemaNamespace): both arguments are kept as given,
      null included; the key is Equal to every key built from the same arguments. */
  function Create(source: Option<Uri>, xmlSchemaNamespace: Option<string>): (k: NamespaceKey)
    ensures k.source == source && k.xmlSchemaNamespace == xmlSchemaNamespace
    ensures Equals(k, Some(NamespaceKey(source, xmlSchemaNamespace))) == Ok(true)
  {
    NamespaceKey(source, xmlSchemaNamespace)
  }

  /** What two keys that compare equal have in common: both sources null, or both non-null
      with the same compared components up to case; and the same namespace. */
  predicate Equivalent(a: NamespaceKey, b: NamespaceKey) {
    SameSource(a, b) && a.xmlSchemaNamespace == b.xmlSchemaNamespace
  }

  predicate SameSource(a: NamespaceKey, b: NamespaceKey) {
    && a.source.None? == b.source.None?
    && (a.source.Some? ==>
          FoldUpper(ComparedComponents(a.source.value)) == FoldUpper(ComparedComponents(b.source.value)))
  }

  /** CompareTo(other) for a non-null other, as the sign of the source's result. */
  function Compare(a: NamespaceKey, b: NamespaceKey): (r: int)
    ensures -1 <= r <= 1
    ensures r == 0 <==> Equivalent(a, b)
  {
    if a.source.None? && b.source.Some? then -1
    else if a.source.Some? && b.source.None? then 1
    else if a.source.Some? && UriCompare(a.source.value, b.source.value) != 0 then
      UriCompare(a.source.value, b.source.value)
    else
      NullableOrdinalCompare(a.xmlSchemaNamespace, b.xmlSchemaNamespace)
  }

  // ---------------------------------------------------------------------------------
  // The typed and untyped entry points, with the exceptions they throw

  datatype Exception = NullReference | InvalidCast | Argument

  datatype Result<+T> = Ok(value: T) | Throws(error: Exception)

  /** An argument of static type object: null, a boxed key, or an object of any other type. */
  datatype Object = Null | Boxed(key: NamespaceKey) | Foreign

  /** CompareTo(NamespaceKey other): a null other is dereferenced and throws. */
  function CompareTo(k: NamespaceKey, other: Option<NamespaceKey>): (r: Result<int>)
    ensures r.Throws? <==> other.None?
    ensures r.Throws? ==> r.error == NullReference
    ensures other.Some? ==> -1 <= r.value <= 1 && (r.value == 0 <==> Equivalent(k, other.value))
  {
    match other
    case None => Throws(NullReference)
    case Some(o) => Ok(Compare(k, o))
  }

  /** Equals(NamespaceKey other): true exactly when CompareTo(other) is 0. */
  function Equals(k: NamespaceKey, other: Option<NamespaceKey>): (r: Result<bool>)
    ensures r.Throws? <==> other.None?
    ensures r.Throws? ==> r.error == NullReference
    ensures other.Some? ==> (r.value <==> Equivalent(k, other.value))
  {
    match CompareTo(k, other)
    case Ok(c) => Ok(c == 0)
    case Throws(e) => Throws(e)
  }

  /** Equals(object): casts to NamespaceKey, then defers to the typed Equals. */
  function EqualsObject(k: NamespaceKey, obj: Object): (r: Result<bool>)
    ensures obj.Boxed? ==> r == Equals(k, Some(obj.key))
    ensures obj.Null? ==> r == Throws(NullReference)
    ensures obj.Foreign? ==> r == Throws(InvalidCast)
  {
    match obj
    case Null => Equals(k, None)
    case Boxed(o) => Equals(k, Some(o))
    case Foreign => Throws(InvalidCast)
  }

  /** IComparable.CompareTo(object): casts to NamespaceKey, then defers to the typed CompareTo. */
  function CompareToObject(k: NamespaceKey, obj: Object): (r: Result<int>)
    ensures obj.Boxed? ==> r == CompareTo(k, Some(obj.key))
    ensures obj.Null? ==> r == Throws(NullReference)
    ensures obj.Foreign? ==> r == Throws(InvalidCast)
  {
    match obj
    case Null => CompareTo(k, None)
    case Boxed(o) => CompareTo(k, Some(o))
    case Foreign => Throws(InvalidCast)
  }

  /** GetHashCode(): the hash of the lower-cased compared components (0 for a null source),
      XOR the hash of the namespace. String.ToLower() runs under the current culture and
      String.GetHashCode() is whatever the runtime supplies; both are parameters.
      A null namespace is dereferenced and throws. */
  function GetHashCode(k: NamespaceKey, culture: Culture, stringHash: string -> bv32): (r: Result<bv32>)
    ensures r.Throws? <==> k.xmlSchemaNamespace.None?
    ensures r.Throws? ==> r.error == NullReference
    ensures r.Ok? && k.source.None? ==> r.value == stringHash(k.xmlSchemaNamespace.value)
  {
    var sourceHash: bv32 :=
      if k.source.Some? then stringHash(ToLower(culture, ComparedComponents(k.source.value))) else 0;
    match k.xmlSchemaNamespace
    case None => Throws(NullReference)
    case Some(ns) => Ok(sourceHash ^ stringHash(ns))
  }

  // ---------------------------------------------------------------------------------
  // How the order decides

  /** A key with a null source sorts before a key with a non-null source, whatever
      their namespaces. */
  lemma NullSourceSortsFirst(a: NamespaceKey, b: NamespaceKey)
    requires a.source.None? && b.source.Some?
    ensures Compare(a, b) == -1 && Compare(b, a) == 1
  {
  }

  /** When two non-null sources differ on the compared components, the URI comparison
      is the result and the namespaces are not consulted. */
  lemma DifferingSourcesDecide(u: Uri, v: Uri, n: Option<string>, m: Option<string>)
    requires FoldUpper(ComparedComponents(u)) != FoldUpper(ComparedComponents(v))
    ensures Compare(NamespaceKey(Some(u), n), NamespaceKey(Some(v), m)) == UriCompare(u, v)
    ensures UriCompare(u, v) != 0
  {
  }

  /** With both sources null, or both equal on the compared components up to case,
      the namespaces decide, ordinally. */
  lemma NamespaceBreaksTies(a: NamespaceKey, b: NamespaceKey)
    requires a.source.None? == b.source.None?
    requires a.source.Some? ==> UriCompare(a.source.value, b.source.value) == 0
    ensures Compare(a, b) == NullableOrdinalCompare(a.xmlSchemaNamespace, b.xmlSchemaNamespace)
  {
  }

  /** Sources that differ only in port, user info, query or fragment, or in the letter case
      of scheme, host and path, compare equal: the namespaces alone decide. */
  lemma IgnoredUriDifferences(u: Uri, v: Uri, n: Option<string>, m: Option<string>)
    requires FoldUpper(u.scheme) == FoldUpper(v.scheme)
    requires FoldUpper(u.host) == FoldUpper(v.host)
    requires FoldUpper(u.path) == FoldUpper(v.path)
    ensures Compare(NamespaceKey(Some(u), n), NamespaceKey(Some(v), m)) == NullableOrdinalCompare(n, m)
    ensures Equals(NamespaceKey(Some(u), n), Some(NamespaceKey(Some(v), m))) == Ok(n == m)
  {
    FoldUpperAppend(u.scheme, "://");
    FoldUpperAppend(v.scheme, "://");
    FoldUpperAppend(u.scheme + "://", u.host);
    FoldUpperAppend(v.scheme + "://", v.host);
    FoldUpperAppend(u.scheme + "://" + u.host, u.path);
    FoldUpperAppend(v.scheme + "://" + v.host, v.path);
    assert FoldUpper(ComparedComponents(u)) == FoldUpper(ComparedComponents(v));
  }

  // ---------------------------------------------------------------------------------
  // The total order IComparable<NamespaceKey> promises

  lemma CompareReflexive(k: NamespaceKey)
    ensures Compare(k, k) == 0
  {
  }

  lemma CompareAntisymmetric(a: NamespaceKey, b: NamespaceKey)
    ensures Compare(b, a) == -Compare(a, b)
  {
    if a.source.Some? && b.source.Some? {
      OrdinalAntisymmetric(FoldUpper(ComparedComponents(a.source.value)),
                           FoldUpper(ComparedComponents(b.source.value)));
    }
    NullableOrdinalAntisymmetric(a.xmlSchemaNamespace, b.xmlSchemaNamespace);
  }

  /** Keys that compare equal compare alike against every third key. */
  lemma EquivalentKeysCompareAlike(a: NamespaceKey, b: NamespaceKey, c: NamespaceKey)
    requires Compare(a, b) == 0
    ensures Compare(a, c) == Compare(b, c)
  {
  }

  lemma CompareTransitive(a: NamespaceKey, b: NamespaceKey, c: NamespaceKey)
    requires Compare(a, b) <= 0 && Compare(b, c) <= 0
    ensures Compare(a, c) <= 0
    ensures Compare(a, b) < 0 || Compare(b, c) < 0 ==> Compare(a, c) < 0
  {
    if a.source.Some? && b.source.Some? && c.source.Some? {
      var sa, sb, sc := FoldUpper(ComparedComponents(a.source.value)),
                        FoldUpper(ComparedComponents(b.source.value)),
                        FoldUpper(ComparedComponents(c.source.value));
      OrdinalTransitive(sa, sb, sc);
      OrdinalAntisymmetric(sa, sb);
      OrdinalAntisymmetric(sb, sc);
    }
    if SameSource(a, b) && SameSource(b, c) {
      NullableOrdinalTransitive(a.xmlSchemaNamespace, b.xmlSchemaNamespace, c.xmlSchemaNamespace);
    }
    if Compare(a, c) == 0 {
      EquivalentKeysCompareAlike(a, c, b);
      CompareAntisymmetric(b, c);
    }
  }

  /** Equals is an equivalence relation on non-null keys. */
  lemma EqualsIsEquivalence(a: NamespaceKey, b: NamespaceKey, c: NamespaceKey)
    ensures Equals(a, Some(a)) == Ok(true)
    ensures Equals(a, Some(b)) == Equals(b, Some(a))
    ensures Equals(a, Some(b)) == Ok(true) && Equals(b, Some(c)) == Ok(true) ==> Equals(a, Some(c)) == Ok(true)
  {
    CompareAntisymmetric(a, b);
    if Compare(a, b) == 0 && Compare(b, c) == 0 {
      CompareTransitive(a, b, c);
      CompareTransitive(c, b, a);
      CompareAntisymmetric(a, c);
    }
  }

  // ---------------------------------------------------------------------------------
  // The hash code

  /** The compared components of a key's source, when there is one, are plain ASCII. */
  predicate SourceIsAscii(k: NamespaceKey) {
    k.source.Some? ==> IsAscii(ComparedComponents(k.source.value))
  }

  /** Under the invariant culture, keys that are Equal and whose compared components are
      ASCII have the same hash code (or both throw), whatever the string hash. */
  lemma HashAgreesWithEqualsForAscii(a: NamespaceKey, b: NamespaceKey, stringHash: string -> bv32)
    requires Equals(a, Some(b)) == Ok(true)
    requires SourceIsAscii(a) && SourceIsAscii(b)
    ensures GetHashCode(a, Invariant, stringHash) == GetHashCode(b, Invariant, stringHash)
  {
    if a.source.Some? {
      AsciiIgnoreCaseEqualLowersEqual(ComparedComponents(a.source.value), ComparedComponents(b.source.value));
    }
  }

  const SigmaKeyFinal := NamespaceKey(Some(Uri("http", "", "example.org", 80, "/ς", "", "")), Some("urn:x"))
  const SigmaKeyMedial := NamespaceKey(Some(Uri("http", "", "example.org", 80, "/σ", "", "")), Some("urn:x"))

  /** In every culture two Equal keys, with paths "/ς" and "/σ", lower-case to different
      strings, so a string hash can tell them apart. */
  lemma HashDisagreesInEveryCulture(culture: Culture)
    ensures Equals(SigmaKeyFinal, Some(SigmaKeyMedial)) == Ok(true)
    ensures ToLower(culture, ComparedComponents(SigmaKeyFinal.source.value))
         != ToLower(culture, ComparedComponents(SigmaKeyMedial.source.value))
    ensures var h := (s: string) => if s == ToLower(culture, ComparedComponents(SigmaKeyFinal.source.value)) then 1 else 0;
            GetHashCode(SigmaKeyFinal, culture, h) != GetHashCode(SigmaKeyMedial, culture, h)
  {
    var fin, med := ComparedComponents(SigmaKeyFinal.source.value), ComparedComponents(SigmaKeyMedial.source.value);
    assert fin[|fin| - 1] == 'ς' && med[|med| - 1] == 'σ';
    assert ToLower(culture, fin)[|fin| - 1] == 'ς';
    assert ToLower(culture, med)[|med| - 1] == 'σ';
    assert FoldUpper(fin) == FoldUpper(med) by {
      forall i | 0 <= i < |fin| ensures FoldUpper(fin)[i] == FoldUpper(med)[i] {
        if i < |fin| - 1 { assert fin[i] == med[i]; }
      }
    }
  }

  const TurkishKeyUpper := NamespaceKey(Some(Uri("http", "", "example.org", 80, "/I", "", "")), Some("urn:x"))
  const TurkishKeyLower := NamespaceKey(Some(Uri("http", "", "example.org", 80, "/i", "", "")), Some("urn:x"))

  /** Under the Turkish culture two Equal keys, with paths "/I" and "/i", lower-case to
      different strings, so a string hash can tell them apart. */
  lemma HashDisagreesUnderTurkishCulture()
    ensures Equals(TurkishKeyUpper, Some(TurkishKeyLower)) == Ok(true)
    ensures ToLower(Turkish, ComparedComponents(TurkishKeyUpper.source.value))
         != ToLower(Turkish, ComparedComponents(TurkishKeyLower.source.value))
    ensures var h := (s: string) => if s == ToLower(Turkish, ComparedComponents(TurkishKeyUpper.source.value)) then 1 else 0;
            GetHashCode(TurkishKeyUpper, Turkish, h) != GetHashCode(TurkishKeyLower, Turkish, h)
  {
    var up, low := ComparedComponents(TurkishKeyUpper.source.value), ComparedComponents(TurkishKeyLower.source.value);
    assert up[|up| - 1] == 'I' && low[|low| - 1] == 'i';
    assert ToLower(Turkish, up)[|up| - 1] == 'ı';
    assert ToLower(Turkish, low)[|low| - 1] == 'i';
    assert FoldUpper(up) == FoldUpper(low);
  }

  /** The hash with the same case fold the comparison uses (StringComparer.OrdinalIgnoreCase),
      independent of the current culture. */
  function GetHashCodeFixed(k: NamespaceKey, stringHash: string -> bv32): (r: Result<bv32>)
    ensures r.Throws? <==> k.xmlSchemaNamespace.None?
    ensures r.Throws? ==> r.error == NullReference
  {
    match k.xmlSchemaNamespace
    case None => Throws(NullReference)
    case Some(ns) => Ok(FoldedSourceHash(k.source, stringHash) ^ stringHash(ns))
  }

  function FoldedSourceHash(source: Option<Uri>, stringHash: string -> bv32): bv32 {
    if source.Some? then stringHash(FoldUpper(ComparedComponents(source.value))) else 0
  }

  /** Equal keys have the same corrected hash, under every culture and every string hash. */
  lemma HashFixedAgreesWithEquals(a: NamespaceKey, b: NamespaceKey, stringHash: string -> bv32)
    requires Equals(a, Some(b)) == Ok(true)
    ensures GetHashCodeFixed(a, stringHash) == GetHashCodeFixed(b, stringHash)
  {
    FixedHashOfEquivalent(a, b, stringHash);
  }

  lemma FixedHashOfEquivalent(a: NamespaceKey, b: NamespaceKey, stringHash: string -> bv32)
    requires Equivalent(a, b)
    ensures GetHashCodeFixed(a, stringHash) == GetHashCodeFixed(b, stringHash)
  {
    assert FoldedSourceHash(a.source, stringHash) == FoldedSourceHash(b.source, stringHash);
  }

  // ---------------------------------------------------------------------------------
  // Null and foreign arguments to the object overloads

  /** Equals(object) throws for null and for an object that is not a key. */
  lemma EqualsObjectThrows(k: NamespaceKey)
    ensures EqualsObject(k, Null).Throws? && EqualsObject(k, Foreign).Throws?
  {
  }

  /** Equals(object) as Object.Equals is specified: false for null and for other types. */
  function EqualsObjectFixed(k: NamespaceKey, obj: Object): (r: bool)
    ensures obj.Boxed? ==> Equals(k, Some(obj.key)) == Ok(r)
    ensures !obj.Boxed? ==> !r
  {
    match obj
    case Boxed(o) => Compare(k, o) == 0
    case _ => false
  }

  /** The corrected Equals(object) is reflexive and symmetric on keys. */
  lemma EqualsObjectFixedSymmetric(a: NamespaceKey, b: NamespaceKey)
    ensures EqualsObjectFixed(a, Boxed(b)) == EqualsObjectFixed(b, Boxed(a))
    ensures EqualsObjectFixed(a, Boxed(a))
  {
    CompareAntisymmetric(a, b);
  }

  /** IComparable.CompareTo(object) throws for null. */
  lemma CompareToObjectThrowsOnNull(k: NamespaceKey)
    ensures CompareToObject(k, Null) == Throws(NullReference)
  {
  }

  /** IComparable.CompareTo(object) as IComparable is specified: every instance follows null,
      and an object of another type is an ArgumentException. */
  function CompareToObjectFixed(k: NamespaceKey, obj: Object): (r: Result<int>)
    ensures obj.Null? ==> r == Ok(1)
    ensures obj.Boxed? ==> r == CompareTo(k, Some(obj.key))
    ensures obj.Foreign? ==> r == Throws(Argument)
  {
    match obj
    case Null => Ok(1)
    case Boxed(o) => Ok(Compare(k, o))
    case Foreign => Throws(Argument)
  }
}
