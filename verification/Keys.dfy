/** The three kinds of data store keys, printed and parsed. */
module Keys {
  import opened Prelude
  import opened Text
  import opened SemVer

  type Uint64 = n: nat | n <= MAX_UINT64

  /** Versions whose printed form is determined by their precedence: no build metadata. */
  type PlainVersion = v: Version | v.metadata == "" witness Version(0, 0, 0, [], "")

  /** `version` is absent when the record's version pointer is nil. */
  datatype AddressRefKey = AddressRefKey(chain: Uint64, typ: string, version: Option<PlainVersion>, qualifier: string)
  datatype ContractMetadataKey = ContractMetadataKey(chain: Uint64, address: string)
  datatype ChainMetadataKey = ChainMetadataKey(chain: Uint64)

  /** The source panics on an invalid version. Versions with build metadata are outside this model of keys. */
  datatype KeyError = WrongParts | BadSelector | InvalidVersion | BuildMetadata

  /** The version library's printer and parser, of which only these laws are used. */
  datatype VersionText = VersionText(print_: Version -> string, parse: string -> Option<Version>) {
    ghost predicate Lawful() {
      forall v {:trigger print_(v)} :: parse(print_(v)) == Some(v) && '_' !in print_(v)
    }
  }

  predicate VersionsEqual(a: Option<Version>, b: Option<Version>) {
    if a.None? || b.None? then a == b else Compare(a.value, b.value) == 0
  }

  /** Key equality as the stores' scans test it: versions by precedence, the rest by value. */
  predicate AddressRefKeysEqual(a: AddressRefKey, b: AddressRefKey) {
    a.chain == b.chain && a.typ == b.typ && VersionsEqual(a.version, b.version) && a.qualifier == b.qualifier
  }

  function PrintAddressRefKey(t: VersionText, k: AddressRefKey): string
    requires k.version.Some?
  {
    FormatUint(k.chain) + "_" + k.typ + "_" + t.print_(k.version.value) + "_" + k.qualifier
  }

  function ParseAddressRefKey(t: VersionText, s: string): Result<AddressRefKey, KeyError> {
    var parts := Split(s, '_');
    if |parts| != 4 then Err(WrongParts)
    else
      match ParseUint(parts[0])
      case None => Err(BadSelector)
      case Some(chain) =>
        match t.parse(parts[2])
        case None => Err(InvalidVersion)
        case Some(v) =>
          if v.metadata != "" then Err(BuildMetadata)
          else Ok(AddressRefKey(chain, parts[1], Some(v), parts[3]))
  }

  function PrintContractMetadataKey(k: ContractMetadataKey): string {
    FormatUint(k.chain) + "_" + k.address
  }

  function ParseContractMetadataKey(s: string): Result<ContractMetadataKey, KeyError> {
    var parts := Split(s, '_');
    if |parts| != 2 then Err(WrongParts)
    else
      match ParseUint(parts[0])
      case None => Err(BadSelector)
      case Some(chain) => Ok(ContractMetadataKey(chain, parts[1]))
  }

  function PrintChainMetadataKey(k: ChainMetadataKey): string {
    FormatUint(k.chain)
  }

  function ParseChainMetadataKey(s: string): Result<ChainMetadataKey, KeyError> {
    if s == "" then Err(WrongParts)
    else
      match ParseUint(s)
      case None => Err(BadSelector)
      case Some(chain) => Ok(ChainMetadataKey(chain))
  }

  lemma FormatUintHasNoSeparator(n: nat)
    ensures '_' !in FormatUint(n)
  {
    assert !IsDigit('_');
  }

  /** Among keys without build metadata, the scans' equality is equality. */
  lemma KeysEqualIsEquality(a: AddressRefKey, b: AddressRefKey)
    ensures AddressRefKeysEqual(a, b) <==> a == b
  {
    if a.version.Some? && b.version.Some? {
      CompareLaws(a.version.value, b.version.value, b.version.value);
    }
  }

  /** Build metadata breaks that: versions equal by precedence print alike exactly when it is the same. */
  lemma EqualVersionsPrintAlikeIff(t: VersionText, a: Version, b: Version)
    requires t.Lawful() && VersionsEqual(Some(a), Some(b))
    ensures t.print_(a) == t.print_(b) <==> a.metadata == b.metadata
  {
    CompareLaws(a, b, b);
    assert t.parse(t.print_(a)) == Some(a) && t.parse(t.print_(b)) == Some(b);
    if a.metadata == b.metadata {
      assert a == a.(metadata := "").(metadata := a.metadata) == b;
    }
  }

  /** For example, one version with two build metadata. */
  lemma BuildMetadataSplitsEqualKeys(t: VersionText)
    requires t.Lawful()
    ensures var a, b := Version(1, 0, 0, [], "x"), Version(1, 0, 0, [], "y");
            VersionsEqual(Some(a), Some(b)) && t.print_(a) != t.print_(b)
  {
    EqualVersionsPrintAlikeIff(t, Version(1, 0, 0, [], "x"), Version(1, 0, 0, [], "y"));
  }

  lemma AddressRefKeySplits(chain: string, typ: string, v: string, qualifier: string)
    requires '_' !in chain && '_' !in v
    ensures var parts := Split(chain + "_" + typ + "_" + v + "_" + qualifier, '_');
            if '_' !in typ && '_' !in qualifier then parts == [chain, typ, v, qualifier] else |parts| > 4
  {
    var tail := v + ['_'] + qualifier;
    var rest := typ + (['_'] + tail);
    assert chain + "_" + typ + "_" + v + "_" + qualifier == chain + ['_'] + rest;
    SplitAfterPart(chain, rest, '_');
    SplitAfterPart(v, qualifier, '_');
    SplitIsOneIff(qualifier, '_');
    SplitIsOneIff(typ, '_');
    SplitCountsSeparators(typ, ['_'] + tail, '_');
    assert (['_'] + tail)[1..] == tail;
    if '_' !in typ {
      SplitAfterPart(typ, tail, '_');
      assert rest == typ + ['_'] + tail;
    }
  }

  /**
    A printed address ref key parses back to itself exactly when neither its type nor its
    qualifier contains the separator; otherwise it fails to parse, and never as another key.
  */
  lemma AddressRefKeyRoundTrip(t: VersionText, k: AddressRefKey)
    requires t.Lawful() && k.version.Some?
    ensures ParseAddressRefKey(t, PrintAddressRefKey(t, k))
         == if '_' !in k.typ && '_' !in k.qualifier then Ok(k) else Err(WrongParts)
    ensures '_' !in k.typ && '_' !in k.qualifier ==>
              Split(PrintAddressRefKey(t, k), '_') ==
                [FormatUint(k.chain), k.typ, t.print_(k.version.value), k.qualifier]
  {
    var chain, v := FormatUint(k.chain), t.print_(k.version.value);
    assert t.parse(v) == Some(k.version.value) && '_' !in v;
    FormatUintHasNoSeparator(k.chain);
    AddressRefKeySplits(chain, k.typ, v, k.qualifier);
    ParseFormatUint(k.chain);
  }

  lemma ContractMetadataKeyRoundTrip(k: ContractMetadataKey)
    ensures ParseContractMetadataKey(PrintContractMetadataKey(k))
         == if '_' !in k.address then Ok(k) else Err(WrongParts)
    ensures '_' !in k.address ==> Split(PrintContractMetadataKey(k), '_') == [FormatUint(k.chain), k.address]
  {
    FormatUintHasNoSeparator(k.chain);
    assert PrintContractMetadataKey(k) == FormatUint(k.chain) + ['_'] + k.address;
    SplitAfterPart(FormatUint(k.chain), k.address, '_');
    SplitIsOneIff(k.address, '_');
    ParseFormatUint(k.chain);
  }

  lemma ChainMetadataKeyRoundTrip(k: ChainMetadataKey)
    ensures ParseChainMetadataKey(PrintChainMetadataKey(k)) == Ok(k)
  {
    ParseFormatUint(k.chain);
  }

  /** The four parts of a text that parses as a key, none of them with a separator. */
  ghost predicate PartsOf(t: VersionText, s: string, k: AddressRefKey, chain: string, v: string) {
    && s == chain + "_" + k.typ + "_" + v + "_" + k.qualifier
    && '_' !in chain && '_' !in k.typ && '_' !in v && '_' !in k.qualifier
    && ParseUint(chain) == Some(k.chain) && k.version.Some? && t.parse(v) == Some(k.version.value)
  }

  /** Which texts parse as which key: a number, a type, a version and a qualifier between three separators. */
  lemma ParsesAsIff(t: VersionText, s: string, k: AddressRefKey)
    ensures ParseAddressRefKey(t, s) == Ok(k) <==> exists chain, v :: PartsOf(t, s, k, chain, v)
    ensures var parts, r := Split(s, '_'), ParseAddressRefKey(t, s);
            && (r == Err(WrongParts) <==> |parts| != 4)
            && (r == Err(BadSelector) <==> |parts| == 4 && ParseUint(parts[0]).None?)
            && (r == Err(InvalidVersion) <==> |parts| == 4 && ParseUint(parts[0]).Some? && t.parse(parts[2]).None?)
  {
    if ParseAddressRefKey(t, s) == Ok(k) {
      var parts := Split(s, '_');
      JoinSplit(s, '_');
      JoinFour(parts);
      assert PartsOf(t, s, k, parts[0], parts[2]);
    }
    if chain, v :| PartsOf(t, s, k, chain, v) {
      AddressRefKeySplits(chain, k.typ, v, k.qualifier);
    }
  }

  lemma JoinFour(parts: seq<string>)
    requires |parts| == 4
    ensures Join(parts, '_') == parts[0] + "_" + parts[1] + "_" + parts[2] + "_" + parts[3]
  {
    var tail := parts[1..];
    assert tail[1..] == [parts[2], parts[3]] && [parts[2], parts[3]][1..] == [parts[3]];
    assert Join([parts[3]], '_') == parts[3];
    assert Join([parts[2], parts[3]], '_') == parts[2] + ['_'] + parts[3];
    assert Join(tail, '_') == parts[1] + ['_'] + (parts[2] + ['_'] + parts[3]);
  }

  /** Printing is injective on address ref keys free of the separator; a clash needs both keys to have one. */
  lemma AddressRefKeyPrintsOnce(t: VersionText, a: AddressRefKey, b: AddressRefKey)
    requires t.Lawful() && a.version.Some? && b.version.Some?
    requires '_' !in a.typ && '_' !in a.qualifier
    ensures PrintAddressRefKey(t, a) == PrintAddressRefKey(t, b) <==> a == b
  {
    AddressRefKeyRoundTrip(t, a);
    AddressRefKeyRoundTrip(t, b);
  }

  // ----- Which keys print alike -----

  /** A text up to its first separator, and what comes after it. */
  lemma FirstSeparator(a: string, x: string, b: string, y: string)
    requires '_' !in a && '_' !in b && a + "_" + x == b + "_" + y
    ensures a == b && x == y
  {
    var s := a + "_" + x;
    assert s[|a|] == '_' && s[|b|] == '_';
    assert forall i | 0 <= i < |a| :: s[i] == a[i];
    assert forall i | 0 <= i < |b| :: s[i] == b[i];
    assert |a| == |b|;
    assert a == s[..|a|] && b == s[..|b|] && x == s[|a| + 1..] && y == s[|b| + 1..];
  }

  /** Printed contract keys are told apart by their first separator, whatever the address. */
  lemma ContractMetadataKeyPrintsOnce(a: ContractMetadataKey, b: ContractMetadataKey)
    ensures PrintContractMetadataKey(a) == PrintContractMetadataKey(b) <==> a == b
  {
    FormatUintHasNoSeparator(a.chain);
    FormatUintHasNoSeparator(b.chain);
    if PrintContractMetadataKey(a) == PrintContractMetadataKey(b) {
      FirstSeparator(FormatUint(a.chain), a.address, FormatUint(b.chain), b.address);
      FormatUintValue(a.chain);
      FormatUintValue(b.chain);
    }
  }

  /** What a printed key has after the chain. */
  function AfterChain(t: VersionText, k: AddressRefKey): string
    requires k.version.Some?
  {
    k.typ + "_" + t.print_(k.version.value) + "_" + k.qualifier
  }

  lemma PrintsAlikeAfterChain(t: VersionText, a: AddressRefKey, b: AddressRefKey)
    requires a.version.Some? && b.version.Some?
    ensures PrintAddressRefKey(t, a) == PrintAddressRefKey(t, b)
       <==> a.chain == b.chain && AfterChain(t, a) == AfterChain(t, b)
  {
    var x, y := FormatUint(a.chain), FormatUint(b.chain);
    assert PrintAddressRefKey(t, a) == x + "_" + AfterChain(t, a);
    assert PrintAddressRefKey(t, b) == y + "_" + AfterChain(t, b);
    FormatUintHasNoSeparator(a.chain);
    FormatUintHasNoSeparator(b.chain);
    if PrintAddressRefKey(t, a) == PrintAddressRefKey(t, b) {
      FirstSeparator(x, AfterChain(t, a), y, AfterChain(t, b));
      FormatUintValue(a.chain);
      FormatUintValue(b.chain);
    }
  }

  /** Keys whose types are equally long print alike only if they are equal, separators or not. */
  lemma EquallyLongTypesPrintOnce(t: VersionText, a: AddressRefKey, b: AddressRefKey)
    requires t.Lawful() && a.version.Some? && b.version.Some? && |a.typ| == |b.typ|
    ensures PrintAddressRefKey(t, a) == PrintAddressRefKey(t, b) <==> a == b
  {
    PrintsAlikeAfterChain(t, a, b);
    if AfterChain(t, a) == AfterChain(t, b) {
      var n, va, vb := |a.typ|, t.print_(a.version.value), t.print_(b.version.value);
      var s := AfterChain(t, a);
      assert s[..n] == a.typ && s[n + 1..] == va + "_" + a.qualifier;
      assert s[..n] == b.typ && s[n + 1..] == vb + "_" + b.qualifier;
      assert t.parse(va) == Some(a.version.value) && t.parse(vb) == Some(b.version.value);
      FirstSeparator(va, a.qualifier, vb, b.qualifier);
    }
  }

  /** The longer type swallows the version of the shorter key and perhaps a piece of its qualifier. */
  ghost predicate Swallows(t: VersionText, a: AddressRefKey, b: AddressRefKey)
    requires a.version.Some? && b.version.Some?
  {
    var va, vb := t.print_(a.version.value), t.print_(b.version.value);
    || (b.typ == a.typ + "_" + va && a.qualifier == vb + "_" + b.qualifier)
    || exists mid: string :: SwallowsPiece(a, b, va, vb, mid)
  }

  predicate SwallowsPiece(a: AddressRefKey, b: AddressRefKey, va: string, vb: string, mid: string) {
    b.typ == a.typ + "_" + va + "_" + mid && a.qualifier == mid + "_" + vb + "_" + b.qualifier
  }

  /** Two texts of a version and a rest, the second with something in front of its version. */
  lemma VersionInside(va: string, qa: string, front: string, vb: string, qb: string)
    requires '_' !in va && va + "_" + qa == front + "_" + vb + "_" + qb
    ensures (front == va && qa == vb + "_" + qb)
         || (|front| > |va| && front == va + "_" + front[|va| + 1..] && qa == front[|va| + 1..] + "_" + vb + "_" + qb)
  {
    var s := va + "_" + qa;
    assert s == front + "_" + (vb + "_" + qb);
    assert s[|va|] == '_' && s[|front|] == '_';
    assert forall i | 0 <= i < |va| :: s[i] == va[i];
    assert |front| >= |va|;
    assert s[..|front|] == front && s[|front| + 1..] == vb + "_" + qb && s[|va| + 1..] == qa;
    if |front| == |va| {
      assert front == s[..|va|] == va;
    } else {
      assert front[|va|] == s[|va|] && front[..|va|] == s[..|va|] == va;
      assert s[|va| + 1..] == front[|va| + 1..] + "_" + (vb + "_" + qb);
    }
  }

  lemma AlikeMeansSwallows(t: VersionText, a: AddressRefKey, b: AddressRefKey)
    requires t.Lawful() && a.version.Some? && b.version.Some? && |a.typ| < |b.typ|
    requires AfterChain(t, a) == AfterChain(t, b)
    ensures Swallows(t, a, b)
  {
    var n, va, vb := |a.typ|, t.print_(a.version.value), t.print_(b.version.value);
    var s, front := AfterChain(t, a), b.typ[n + 1..];
    assert s[..n] == a.typ && s[n] == '_' && s[n + 1..] == va + "_" + a.qualifier;
    assert s[..n] == b.typ[..n] && s[n] == b.typ[n] && s[n + 1..] == front + "_" + vb + "_" + b.qualifier;
    assert b.typ == a.typ + "_" + front;
    VersionInside(va, a.qualifier, front, vb, b.qualifier);
    if front != va {
      var mid := front[|va| + 1..];
      assert b.typ == a.typ + "_" + va + "_" + mid;
      assert SwallowsPiece(a, b, va, vb, mid);
    }
  }

  lemma SwallowsMeansAlike(t: VersionText, a: AddressRefKey, b: AddressRefKey)
    requires a.version.Some? && b.version.Some? && Swallows(t, a, b)
    ensures AfterChain(t, a) == AfterChain(t, b)
  {
    var va, vb := t.print_(a.version.value), t.print_(b.version.value);
    if mid: string :| SwallowsPiece(a, b, va, vb, mid) {
      assert AfterChain(t, a) == a.typ + "_" + va + "_" + (mid + "_" + vb + "_" + b.qualifier) == AfterChain(t, b);
    } else {
      assert AfterChain(t, a) == a.typ + "_" + va + "_" + (vb + "_" + b.qualifier) == AfterChain(t, b);
    }
  }

  /** Keys with types of different lengths print alike exactly when they share the chain and the longer swallows. */
  lemma KeysPrintAlikeIff(t: VersionText, a: AddressRefKey, b: AddressRefKey)
    requires t.Lawful() && a.version.Some? && b.version.Some? && |a.typ| < |b.typ|
    ensures PrintAddressRefKey(t, a) == PrintAddressRefKey(t, b) <==> a.chain == b.chain && Swallows(t, a, b)
  {
    PrintsAlikeAfterChain(t, a, b);
    if AfterChain(t, a) == AfterChain(t, b) { AlikeMeansSwallows(t, a, b); }
    if Swallows(t, a, b) { SwallowsMeansAlike(t, a, b); }
  }

  /** For example, a type that ends in the version. */
  lemma SeparatorsMakeKeysClash(t: VersionText, v: PlainVersion)
    requires t.Lawful()
    ensures var a := AddressRefKey(1, "a", Some(v), t.print_(v) + "_x");
            var b := AddressRefKey(1, "a_" + t.print_(v), Some(v), "x");
            a != b && PrintAddressRefKey(t, a) == PrintAddressRefKey(t, b)
  {
    var w := t.print_(v);
    var a, b := AddressRefKey(1, "a", Some(v), w + "_x"), AddressRefKey(1, "a_" + w, Some(v), "x");
    assert "a" + "_" + w == "a_" + w && w + "_" + "x" == w + "_x";
    KeysPrintAlikeIff(t, a, b);
  }
}
