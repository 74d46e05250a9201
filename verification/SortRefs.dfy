/** The canonical order of address refs. */
module SortRefs {
  import opened Prelude
  import opened Text
  import opened SemVer
  import opened Keys
  import opened MemoryStores
  import opened StableSorting

  /** A nil version comes first. */
  function CompareVersions(a: Option<Version>, b: Option<Version>): int {
    match (a, b)
    case (None, None) => 0
    case (None, Some(_)) => -1
    case (Some(_), None) => 1
    case (Some(x), Some(y)) => Compare(x, y)
  }

  /** Chain, type, version, address, qualifier. */
  predicate Before(a: AnyAddressRef, b: AnyAddressRef) {
    if a.chain != b.chain then a.chain < b.chain
    else if a.typ != b.typ then Less(a.typ, b.typ)
    else if CompareVersions(a.version, b.version) != 0 then CompareVersions(a.version, b.version) < 0
    else if a.address != b.address then Less(a.address, b.address)
    else Less(a.qualifier, b.qualifier)
  }

  lemma CompareVersionsLaws(a: Option<Version>, b: Option<Version>, c: Option<Version>)
    ensures CompareVersions(a, b) == 0 <==> VersionsEqual(a, b)
    ensures CompareVersions(a, b) == -CompareVersions(b, a)
    ensures CompareVersions(a, b) == 0 ==> CompareVersions(b, c) == CompareVersions(a, c)
    ensures CompareVersions(a, b) < 0 && CompareVersions(b, c) < 0 ==> CompareVersions(a, c) < 0
  {
    if a.Some? && b.Some? {
      var d := if c.Some? then c.value else b.value;
      CompareLaws(a.value, b.value, d);
      if Compare(a.value, b.value) == 0 { EqualVersionsCompareAlike(a.value, b.value, d); }
    }
  }

  lemma EqualVersionsCompareAlike(a: Version, b: Version, c: Version)
    requires Compare(a, b) == 0
    ensures Compare(a, c) == Compare(b, c)
  {
    CompareLaws(a, b, c);
    assert a.major == b.major && a.minor == b.minor && a.patch == b.patch && a.pre == b.pre by {
      assert a.(metadata := "") == b.(metadata := "");
    }
  }

  /** All the comparator looks at is the same: everything but labels and build metadata. */
  predicate SameButLabels(a: AnyAddressRef, b: AnyAddressRef) {
    a.chain == b.chain && a.typ == b.typ && VersionsEqual(a.version, b.version) && a.address == b.address
    && a.qualifier == b.qualifier
  }

  /** The comparator is a strict order, and ties only records that agree on all it looks at. */
  lemma BeforeIsStrictOrder(a: AnyAddressRef, b: AnyAddressRef, c: AnyAddressRef)
    ensures !Before(a, a)
    ensures Before(a, b) ==> !Before(b, a)
    ensures Before(a, b) && Before(b, c) ==> Before(a, c)
    ensures Tie(Before, a, b) <==> SameButLabels(a, b)
    ensures SameButLabels(a, b) ==> Before(a, c) == Before(b, c) && Before(c, a) == Before(c, b)
  {
    CompareVersionsLaws(a.version, b.version, c.version);
    CompareVersionsLaws(b.version, c.version, a.version);
    CompareVersionsLaws(a.version, c.version, b.version);
    CompareVersionsLaws(a.version, a.version, c.version);
    OrderLaws(a.typ, b.typ, c.typ);
    OrderLaws(a.address, b.address, c.address);
    OrderLaws(a.qualifier, b.qualifier, c.qualifier);
  }

  lemma OrderLaws(a: string, b: string, c: string)
    ensures !Less(a, a) && (Less(a, b) ==> !Less(b, a)) && (Less(a, b) && Less(b, c) ==> Less(a, c))
    ensures Less(a, b) || a == b || Less(b, a)
  {
    LessIrreflexive(a);
    LessTotal(a, b);
    if Less(a, b) {
      LessAsymmetric(a, b);
      if Less(b, c) { LessTransitive(a, b, c); }
    }
  }

  lemma BeforeIsOrder()
    ensures StrictWeakOrder(Before)
  {
    forall a, b ensures Before(a, b) ==> !Before(b, a) { BeforeIsStrictOrder(a, b, b); }
    forall a, b, c ensures Before(c, a) ==> Before(b, a) || Before(c, b) {
      BeforeIsStrictOrder(c, a, b);
      BeforeIsStrictOrder(a, b, c);
      BeforeIsStrictOrder(b, c, a);
    }
  }

  // ----- The order, said without the comparator -----

  /** A nil version first, then by precedence. */
  ghost predicate VersionAscends(a: Option<Version>, b: Option<Version>) {
    match (a, b)
    case (None, Some(_)) => true
    case (Some(x), Some(y)) => Precedes(x, y)
    case (_, None) => false
  }

  predicate SameVersion(a: Option<Version>, b: Option<Version>) {
    match (a, b)
    case (None, None) => true
    case (Some(x), Some(y)) => (x.major, x.minor, x.patch, x.pre) == (y.major, y.minor, y.patch, y.pre)
    case _ => false
  }

  /** Chains ascend; on one chain types do; then versions, addresses, qualifiers, each where all before are the same. */
  ghost predicate RefAscends(a: AnyAddressRef, b: AnyAddressRef) {
    || a.chain < b.chain
    || (a.chain == b.chain &&
        (|| Ascends(a.typ, b.typ)
         || (a.typ == b.typ &&
             (|| VersionAscends(a.version, b.version)
              || (SameVersion(a.version, b.version) &&
                  (|| Ascends(a.address, b.address)
                   || (a.address == b.address && Ascends(a.qualifier, b.qualifier))))))))
  }

  lemma VersionsCompared(a: Option<Version>, b: Option<Version>)
    ensures CompareVersions(a, b) < 0 <==> VersionAscends(a, b)
    ensures CompareVersions(a, b) == 0 <==> SameVersion(a, b)
  {
    if a.Some? && b.Some? {
      CompareIsPrecedence(a.value, b.value);
      CompareLaws(a.value, b.value, b.value);
      var x, y := a.value, b.value;
      assert x.(metadata := "") == y.(metadata := "")
        <==> (x.major, x.minor, x.patch, x.pre) == (y.major, y.minor, y.patch, y.pre);
    }
  }

  lemma StringsCompared(a: string, b: string)
    ensures Less(a, b) <==> Ascends(a, b)
    ensures a == b ==> !Less(a, b)
  {
    LessIsAscends(a, b);
    LessIrreflexive(a);
  }

  lemma BeforeIsAscending(a: AnyAddressRef, b: AnyAddressRef)
    ensures Before(a, b) <==> RefAscends(a, b)
  {
    VersionsCompared(a.version, b.version);
    StringsCompared(a.typ, b.typ);
    StringsCompared(a.address, b.address);
    StringsCompared(a.qualifier, b.qualifier);
  }

  /** The same in all the order looks at. */
  predicate SameRef(a: AnyAddressRef, b: AnyAddressRef) {
    a.chain == b.chain && a.typ == b.typ && SameVersion(a.version, b.version) && a.address == b.address
    && a.qualifier == b.qualifier
  }

  lemma NotAfterAscends(a: AnyAddressRef, b: AnyAddressRef)
    requires !Before(b, a)
    ensures RefAscends(a, b) || SameRef(a, b)
  {
    BeforeIsAscending(a, b);
    BeforeIsStrictOrder(a, b, b);
    VersionsCompared(a.version, b.version);
    CompareVersionsLaws(a.version, b.version, b.version);
  }

  /** Sorts in place: the same records in order, and those that tie as they came in. */
  method SortAddressRefs(refs: array<AnyAddressRef>)
    modifies refs
    ensures refs[..] == StableSort(Before, old(refs[..]))
    ensures multiset(refs[..]) == multiset(old(refs[..]))
    ensures forall i, j | 0 <= i < j < refs.Length :: RefAscends(refs[i], refs[j]) || SameRef(refs[i], refs[j])
    ensures forall x {:trigger TiedWith(Before, x, refs[..])} ::
              TiedWith(Before, x, refs[..]) == TiedWith(Before, x, old(refs[..]))
  {
    ghost var was := refs[..];
    BeforeIsOrder();
    StableSortPermutes(Before, was);
    SortInPlace(Before, refs);
    forall x ensures TiedWith(Before, x, refs[..]) == TiedWith(Before, x, was) { StableSortIsStable(Before, was, x); }
    forall i, j | 0 <= i < j < refs.Length ensures RefAscends(refs[i], refs[j]) || SameRef(refs[i], refs[j]) {
      assert !Before(refs[..][j], refs[..][i]);
      NotAfterAscends(refs[i], refs[j]);
    }
  }

  /** Key equality as the stores test it. */
  predicate KeysEqual(a: AnyAddressRef, b: AnyAddressRef) {
    a.chain == b.chain && a.typ == b.typ && VersionsEqual(a.version, b.version) && a.qualifier == b.qualifier
  }

  /** No two records with equal keys. */
  predicate DifferentKeys(s: seq<AnyAddressRef>) {
    forall x, y | x in s && y in s && x != y :: !KeysEqual(x, y)
  }

  /** No two records that differ in nothing but labels and build metadata. */
  predicate ToldApart(s: seq<AnyAddressRef>) {
    forall x, y | x in s && y in s && x != y :: !SameButLabels(x, y)
  }

  /** The order is canonical exactly on lists whose records are told apart by what the comparator looks at. */
  lemma SortIsCanonicalIff(p: seq<AnyAddressRef>)
    ensures SortsToOneList(Before, p) <==> ToldApart(p)
  {
    BeforeIsOrder();
    SortsToOneListIff(Before, p);
    forall x: AnyAddressRef, y: AnyAddressRef ensures Tie(Before, x, y) <==> SameButLabels(x, y) {
      BeforeIsStrictOrder(x, y, y);
    }
  }

  /** So records with different keys end in one order, whatever order they came in. */
  lemma SortIsCanonicalOnDifferentKeys(p: seq<AnyAddressRef>, q: seq<AnyAddressRef>)
    requires multiset(p) == multiset(q) && DifferentKeys(p)
    ensures StableSort(Before, p) == StableSort(Before, q)
  {
    assert ToldApart(p) by {
      forall x, y | x in p && y in p && x != y ensures !SameButLabels(x, y) { assert !KeysEqual(x, y); }
    }
    SortIsCanonicalIff(p);
  }

  /** Records that differ only in labels, in any list, keep the order they came in. */
  lemma RecordsDifferingInLabelsKeepTheirOrder(s: seq<AnyAddressRef>, x: AnyAddressRef)
    ensures Alike(x, StableSort(Before, s)) == Alike(x, s)
  {
    BeforeIsOrder();
    StableSortIsStable(Before, s, x);
    AlikeIsTied(x, s);
    AlikeIsTied(x, StableSort(Before, s));
  }

  /** The records of a list that differ from `x` at most in labels and build metadata. */
  function Alike(x: AnyAddressRef, s: seq<AnyAddressRef>): seq<AnyAddressRef> {
    if s == [] then []
    else Alike(x, s[..|s| - 1]) + (if SameButLabels(x, s[|s| - 1]) then [s[|s| - 1]] else [])
  }

  lemma {:induction false} AlikeIsTied(x: AnyAddressRef, s: seq<AnyAddressRef>)
    ensures Alike(x, s) == TiedWith(Before, x, s)
  {
    if s != [] {
      AlikeIsTied(x, s[..|s| - 1]);
      BeforeIsStrictOrder(x, s[|s| - 1], x);
    }
  }
}
