/** Semantic versions and their precedence (SemVer 2.0.0, section 11). */
module SemVer {
  import opened Text

  datatype Identifier = Numeric(n: nat) | Alphanumeric(s: string)

  datatype Version = Version(major: nat, minor: nat, patch: nat, pre: seq<Identifier>, metadata: string)

  function CompareNat(a: nat, b: nat): int {
    if a < b then -1 else if a > b then 1 else 0
  }

  function CompareString(a: string, b: string): int {
    if Less(a, b) then -1 else if a == b then 0 else 1
  }

  /** Numeric identifiers come before alphanumeric ones. */
  function CompareIdentifier(a: Identifier, b: Identifier): int {
    match (a, b)
    case (Numeric(x), Numeric(y)) => CompareNat(x, y)
    case (Numeric(_), Alphanumeric(_)) => -1
    case (Alphanumeric(_), Numeric(_)) => 1
    case (Alphanumeric(x), Alphanumeric(y)) => CompareString(x, y)
  }

  /** Field by field; when all shared fields are equal, the longer list comes later. */
  function CompareIdentifiers(a: seq<Identifier>, b: seq<Identifier>): int {
    if a == [] && b == [] then 0
    else if a == [] then -1
    else if b == [] then 1
    else if CompareIdentifier(a[0], b[0]) != 0 then CompareIdentifier(a[0], b[0])
    else CompareIdentifiers(a[1..], b[1..])
  }

  /** A version without prerelease comes after its prereleases. */
  function ComparePrerelease(a: seq<Identifier>, b: seq<Identifier>): int {
    if a == [] && b == [] then 0
    else if a == [] then 1
    else if b == [] then -1
    else CompareIdentifiers(a, b)
  }

  /** Precedence; build metadata plays no part. */
  function Compare(a: Version, b: Version): int {
    if CompareNat(a.major, b.major) != 0 then CompareNat(a.major, b.major)
    else if CompareNat(a.minor, b.minor) != 0 then CompareNat(a.minor, b.minor)
    else if CompareNat(a.patch, b.patch) != 0 then CompareNat(a.patch, b.patch)
    else ComparePrerelease(a.pre, b.pre)
  }

  lemma CompareIdentifierLaws(a: Identifier, b: Identifier, c: Identifier)
    ensures CompareIdentifier(a, b) == 0 <==> a == b
    ensures CompareIdentifier(a, b) == -CompareIdentifier(b, a)
    ensures CompareIdentifier(a, b) < 0 && CompareIdentifier(b, c) < 0 ==> CompareIdentifier(a, c) < 0
  {
    if a.Alphanumeric? && b.Alphanumeric? {
      LessTotal(a.s, b.s);
      LessIrreflexive(a.s);
      if Less(a.s, b.s) {
        LessAsymmetric(a.s, b.s);
        if c.Alphanumeric? && Less(b.s, c.s) { LessTransitive(a.s, b.s, c.s); }
      }
    }
  }

  lemma {:induction false} CompareIdentifiersLaws(a: seq<Identifier>, b: seq<Identifier>, c: seq<Identifier>)
    ensures CompareIdentifiers(a, b) == 0 <==> a == b
    ensures CompareIdentifiers(a, b) == -CompareIdentifiers(b, a)
    ensures CompareIdentifiers(a, b) < 0 && CompareIdentifiers(b, c) < 0 ==> CompareIdentifiers(a, c) < 0
  {
    if a != [] && b != [] {
      CompareIdentifierLaws(a[0], b[0], if c == [] then b[0] else c[0]);
      CompareIdentifiersLaws(a[1..], b[1..], if c == [] then b[1..] else c[1..]);
      assert a == [a[0]] + a[1..] && b == [b[0]] + b[1..];
      if c != [] {
        CompareIdentifierLaws(a[0], c[0], c[0]);
        CompareIdentifierLaws(b[0], c[0], c[0]);
      }
    }
  }

  /** Precedence is a total order on versions, up to build metadata. */
  lemma CompareLaws(a: Version, b: Version, c: Version)
    ensures Compare(a, b) == 0 <==> a.(metadata := "") == b.(metadata := "")
    ensures Compare(a, b) == -Compare(b, a)
    ensures Compare(a, b) < 0 && Compare(b, c) < 0 ==> Compare(a, c) < 0
  {
    CompareIdentifiersLaws(a.pre, b.pre, c.pre);
  }

  // ----- Precedence as section 11 has it -----

  /** 11.4.1 to 11.4.3: numbers by value, text by code point, and numbers before text. */
  ghost predicate IdentifierPrecedes(a: Identifier, b: Identifier) {
    match (a, b)
    case (Numeric(x), Numeric(y)) => x < y
    case (Numeric(_), Alphanumeric(_)) => true
    case (Alphanumeric(_), Numeric(_)) => false
    case (Alphanumeric(x), Alphanumeric(y)) => Ascends(x, y)
  }

  predicate FieldsDifferAt(a: seq<Identifier>, b: seq<Identifier>, i: int) {
    0 <= i < |a| && i < |b| && a[..i] == b[..i] && a[i] != b[i]
  }

  /** 11.4.4: decided by the first field that differs, and if none does the longer list has precedence. */
  ghost predicate FieldsPrecede(a: seq<Identifier>, b: seq<Identifier>) {
    || (|a| < |b| && a == b[..|a|])
    || exists i :: FieldsDifferAt(a, b, i) && IdentifierPrecedes(a[i], b[i])
  }

  /** 11.2 to 11.4: major, minor and patch as numbers; then a prerelease before the release. */
  ghost predicate Precedes(a: Version, b: Version) {
    || a.major < b.major
    || (a.major == b.major && a.minor < b.minor)
    || (a.major == b.major && a.minor == b.minor && a.patch < b.patch)
    || (a.major == b.major && a.minor == b.minor && a.patch == b.patch
        && a.pre != [] && (b.pre == [] || FieldsPrecede(a.pre, b.pre)))
  }

  lemma CompareIdentifierIsPrecedence(a: Identifier, b: Identifier)
    ensures CompareIdentifier(a, b) < 0 <==> IdentifierPrecedes(a, b)
  {
    if a.Alphanumeric? && b.Alphanumeric? { LessIsAscends(a.s, b.s); }
  }

  lemma FieldsDifferFurther(a: seq<Identifier>, b: seq<Identifier>, i: nat)
    requires a != [] && b != [] && a[0] == b[0]
    ensures FieldsDifferAt(a, b, i + 1) <==> FieldsDifferAt(a[1..], b[1..], i)
  {
    if i < |a| - 1 && i < |b| - 1 {
      assert a[..i + 1] == [a[0]] + a[1..][..i] && b[..i + 1] == [b[0]] + b[1..][..i];
    }
  }

  lemma LaterFieldDiffers(a: seq<Identifier>, b: seq<Identifier>, i: int)
    requires FieldsDifferAt(a, b, i) && i > 0
    ensures a[0] == b[0]
  {
    assert a[..i][0] == a[0] && b[..i][0] == b[0];
  }

  lemma {:induction false} CompareIdentifiersIsPrecedence(a: seq<Identifier>, b: seq<Identifier>)
    ensures CompareIdentifiers(a, b) < 0 <==> FieldsPrecede(a, b)
  {
    if a != [] && b != [] {
      forall i | FieldsDifferAt(a, b, i) && i > 0 ensures a[0] == b[0] { LaterFieldDiffers(a, b, i); }
      CompareIdentifierLaws(a[0], b[0], b[0]);
      CompareIdentifierIsPrecedence(a[0], b[0]);
      if a[0] == b[0] {
        CompareIdentifiersIsPrecedence(a[1..], b[1..]);
        assert a == [a[0]] + a[1..] && b == [b[0]] + b[1..];
        assert |a| < |b| ==> b[..|a|] == [b[0]] + b[1..][..|a| - 1];
        if i :| FieldsDifferAt(a[1..], b[1..], i) && IdentifierPrecedes(a[1..][i], b[1..][i]) {
          FieldsDifferFurther(a, b, i);
          assert FieldsDifferAt(a, b, i + 1);
        }
        if i :| FieldsDifferAt(a, b, i) && IdentifierPrecedes(a[i], b[i]) {
          assert i > 0;
          FieldsDifferFurther(a, b, i - 1);
        }
      } else {
        assert FieldsDifferAt(a, b, 0);
      }
    }
  }

  /** Comparing is precedence in the sense of section 11. */
  lemma CompareIsPrecedence(a: Version, b: Version)
    ensures Compare(a, b) < 0 <==> Precedes(a, b)
    ensures Compare(a, b) > 0 <==> Precedes(b, a)
  {
    CompareIdentifiersIsPrecedence(a.pre, b.pre);
    CompareIdentifiersIsPrecedence(b.pre, a.pre);
    CompareLaws(a, b, b);
  }
}
