/** Order of strings, splitting and joining, and decimal numbers. */
module Text {
  import opened Prelude

  // ----- Byte-wise order. UTF-8 orders strings as their code points do. -----

  predicate Less(a: string, b: string) {
    if b == "" then false
    else if a == "" then true
    else a[0] < b[0] || (a[0] == b[0] && Less(a[1..], b[1..]))
  }

  lemma {:induction false} LessIrreflexive(a: string)
    ensures !Less(a, a)
  {
    if a != "" { LessIrreflexive(a[1..]); }
  }

  lemma {:induction false} LessTotal(a: string, b: string)
    ensures Less(a, b) || a == b || Less(b, a)
  {
    if a != "" && b != "" && a[0] == b[0] {
      LessTotal(a[1..], b[1..]);
      assert a == [a[0]] + a[1..] && b == [b[0]] + b[1..];
    }
  }

  lemma {:induction false} LessTransitive(a: string, b: string, c: string)
    requires Less(a, b) && Less(b, c)
    ensures Less(a, c)
  {
    if a != "" && a[0] == b[0] && b[0] == c[0] {
      LessTransitive(a[1..], b[1..], c[1..]);
    }
  }

  lemma LessAsymmetric(a: string, b: string)
    requires Less(a, b)
    ensures !Less(b, a)
  {
    if Less(b, a) {
      LessTransitive(a, b, a);
      LessIrreflexive(a);
    }
  }

  /** `a` is a proper prefix of `b`, or has the smaller character where they first differ. */
  ghost predicate Ascends(a: string, b: string) {
    || (|a| < |b| && a == b[..|a|])
    || exists i :: FirstDifferAt(a, b, i) && a[i] < b[i]
  }

  predicate FirstDifferAt(a: string, b: string, i: int) {
    0 <= i < |a| && i < |b| && a[..i] == b[..i] && a[i] != b[i]
  }

  lemma DifferOneFurther(a: string, b: string, i: nat)
    requires a != "" && b != "" && a[0] == b[0]
    ensures FirstDifferAt(a, b, i + 1) <==> FirstDifferAt(a[1..], b[1..], i)
  {
    if i < |a| - 1 && i < |b| - 1 {
      assert a[..i + 1] == [a[0]] + a[1..][..i] && b[..i + 1] == [b[0]] + b[1..][..i];
    }
  }

  lemma LaterDifference(a: string, b: string, i: int)
    requires FirstDifferAt(a, b, i) && i > 0
    ensures a[0] == b[0]
  {
    assert a[..i][0] == a[0] && b[..i][0] == b[0];
  }

  /** The order of strings is that of their first difference, and a proper prefix comes first. */
  lemma {:induction false} LessIsAscends(a: string, b: string)
    ensures Less(a, b) <==> Ascends(a, b)
  {
    if a != "" && b != "" {
      forall i | FirstDifferAt(a, b, i) && i > 0 ensures a[0] == b[0] { LaterDifference(a, b, i); }
      if a[0] == b[0] {
        LessIsAscends(a[1..], b[1..]);
        assert a == [a[0]] + a[1..] && b == [b[0]] + b[1..];
        assert |a| < |b| ==> b[..|a|] == [b[0]] + b[1..][..|a| - 1];
        if i :| FirstDifferAt(a[1..], b[1..], i) && a[1..][i] < b[1..][i] {
          DifferOneFurther(a, b, i);
          assert FirstDifferAt(a, b, i + 1);
        }
        if i :| FirstDifferAt(a, b, i) && a[i] < b[i] {
          assert i > 0;
          DifferOneFurther(a, b, i - 1);
        }
      } else {
        assert FirstDifferAt(a, b, 0);
      }
    }
  }

  // ----- Splitting at a separator -----

  /** The parts between separators: one more than there are separators. */
  function Split(s: string, sep: char): (parts: seq<string>)
    ensures |parts| >= 1
  {
    if s == "" then [""]
    else
      var rest := Split(s[1..], sep);
      if s[0] == sep then [""] + rest else [[s[0]] + rest[0]] + rest[1..]
  }

  function Join(parts: seq<string>, sep: char): string {
    if |parts| == 0 then ""
    else if |parts| == 1 then parts[0]
    else parts[0] + [sep] + Join(parts[1..], sep)
  }

  lemma {:induction false} SplitAfterPart(part: string, rest: string, sep: char)
    requires sep !in part
    ensures Split(part + [sep] + rest, sep) == [part] + Split(rest, sep)
    ensures Split(part, sep) == [part]
  {
    if part == "" {
      assert part + [sep] + rest == [sep] + rest;
    } else {
      SplitAfterPart(part[1..], rest, sep);
      assert (part + [sep] + rest)[1..] == part[1..] + [sep] + rest;
      assert part == [part[0]] + part[1..];
    }
  }

  lemma {:induction false} SplitCountsSeparators(s: string, t: string, sep: char)
    ensures |Split(s + t, sep)| == |Split(s, sep)| + |Split(t, sep)| - 1
  {
    if s == "" {
      assert s + t == t;
    } else {
      SplitCountsSeparators(s[1..], t, sep);
      assert (s + t)[1..] == s[1..] + t;
    }
  }

  lemma {:induction false} SplitIsOneIff(s: string, sep: char)
    ensures |Split(s, sep)| == 1 <==> sep !in s
    ensures sep !in s ==> Split(s, sep) == [s]
  {
    if s != "" {
      SplitIsOneIff(s[1..], sep);
      assert s == [s[0]] + s[1..];
    }
  }

  /** Parts without the separator come back from their joined text; no parts at all come back as one empty part. */
  lemma {:induction false} SplitJoin(parts: seq<string>, sep: char)
    requires forall i | 0 <= i < |parts| :: sep !in parts[i]
    ensures Split(Join(parts, sep), sep) == if parts == [] then [""] else parts
  {
    if |parts| == 1 {
      SplitAfterPart(parts[0], "", sep);
    } else if |parts| > 1 {
      SplitAfterPart(parts[0], Join(parts[1..], sep), sep);
      SplitJoin(parts[1..], sep);
      assert parts == [parts[0]] + parts[1..];
    }
  }

  /** A text is its parts joined, and no part holds the separator. */
  lemma {:induction false} JoinSplit(s: string, sep: char)
    ensures Join(Split(s, sep), sep) == s
    ensures forall i | 0 <= i < |Split(s, sep)| :: sep !in Split(s, sep)[i]
  {
    if s != "" {
      JoinSplit(s[1..], sep);
      var rest := Split(s[1..], sep);
      if s[0] == sep {
        assert ([""] + rest)[1..] == rest;
      } else {
        var parts := [[s[0]] + rest[0]] + rest[1..];
        assert parts[1..] == rest[1..];
        assert |rest| == 1 ==> Join(rest, sep) == rest[0];
      }
      assert s == [s[0]] + s[1..];
    }
  }

  // ----- Unsigned decimal numbers -----

  const MAX_UINT64: nat := 0xFFFF_FFFF_FFFF_FFFF

  predicate IsDigit(c: char) { '0' <= c <= '9' }

  function Digit(d: nat): char
    requires d < 10
  {
    '0' + (d as char)
  }

  function FormatUint(n: nat): (s: string)
    ensures |s| > 0 && forall c | c in s :: IsDigit(c)
  {
    if n < 10 then [Digit(n)] else FormatUint(n / 10) + [Digit(n % 10)]
  }

  function DigitsValue(s: string): nat
    requires forall c | c in s :: IsDigit(c)
  {
    if s == "" then 0
    else
      var last := s[|s| - 1];
      assert last in s && IsDigit(last);
      10 * DigitsValue(s[..|s| - 1]) + (last - '0') as nat
  }

  /** Base-10 parsing of an unsigned 64-bit number: no sign, no empty string, no overflow. */
  function ParseUint(s: string): Option<nat> {
    if s == "" || (exists i | 0 <= i < |s| :: !IsDigit(s[i])) then None
    else if DigitsValue(s) > MAX_UINT64 then None
    else Some(DigitsValue(s))
  }

  lemma {:induction false} FormatUintValue(n: nat)
    ensures DigitsValue(FormatUint(n)) == n
  {
    if n >= 10 {
      FormatUintValue(n / 10);
      assert FormatUint(n)[..|FormatUint(n)| - 1] == FormatUint(n / 10);
    }
  }

  lemma ParseFormatUint(n: nat)
    ensures ParseUint(FormatUint(n)) == if n <= MAX_UINT64 then Some(n) else None
  {
    FormatUintValue(n);
    var s := FormatUint(n);
    forall i | 0 <= i < |s| ensures IsDigit(s[i]) { assert s[i] in s; }
  }

  lemma {:induction false} ValueIsPositive(s: string)
    requires (forall c | c in s :: IsDigit(c)) && s != "" && s[0] != '0'
    ensures DigitsValue(s) > 0
  {
    if |s| > 1 {
      assert s[..|s| - 1][0] == s[0];
      ValueIsPositive(s[..|s| - 1]);
    } else {
      assert s[..0] == "" && s[0] in s;
    }
  }

  /** Decimal numerals are printed without leading zeros, and so in the one way there is. */
  lemma {:induction false} FormatUintIsShortest(n: nat, s: string)
    requires (forall c | c in s :: IsDigit(c)) && s != "" && (s[0] == '0' ==> s == "0")
    ensures FormatUint(n) == s <==> DigitsValue(s) == n
    ensures FormatUint(n)[0] == '0' ==> n == 0
    decreases |s|, n
  {
    FormatUintValue(n);
    FormatUintStarts(n);
    if DigitsValue(s) == n {
      var init, last := s[..|s| - 1], s[|s| - 1];
      assert s == init + [last] && last in s;
      if init == "" {
        assert DigitsValue(init) == 0 && n < 10 && last == Digit(n);
      } else {
        assert init[0] == s[0];
        ValueIsPositive(init);
        assert n >= 10 && n / 10 == DigitsValue(init) && last == Digit(n % 10);
        FormatUintIsShortest(n / 10, init);
      }
    }
  }

  lemma {:induction false} FormatUintStarts(n: nat)
    ensures FormatUint(n)[0] == '0' ==> n == 0
  {
    if n >= 10 { FormatUintStarts(n / 10); }
  }
}
