/** The idempotency hash of a call: its key bytes, what they identify, and the memo table. */
module Hashing {
  import opened Prelude
  import opened Json
  import opened JsonReader
  import opened Canonical

  /** `version` is the printed semantic version, absent when the pointer is nil. */
  datatype Definition = Definition(id: string, version: Option<string>, description: string)

  /** What an operation or sequence is called with. */
  datatype Work = Work(def: Definition, input: Value)

  function DefinitionJson(d: Definition): Value {
    Object([
      Member("id", Str(d.id)),
      Member("version", if d.version.Some? then Str(d.version.value) else Null),
      Member("description", Str(d.description))])
  }

  /** The canonical bytes of a value: decoded, sorted, printed again. */
  function CanonicalizeJson(v: Value): string {
    Marshal(Canonicalize(v))
  }

  function BuildUniqueHashCacheKey(w: Work, idem: string): string {
    Marshal(DefinitionJson(w.def)) + CanonicalizeJson(w.input) + Tail(idem)
  }

  /** Canonical bytes are exact: equal just when the values are equal up to the order of object members. */
  lemma CanonicalBytesAreExact(a: Value, b: Value)
    requires WellFormed(a) && WellFormed(b) && UniqueNames(a) && UniqueNames(b)
    ensures CanonicalizeJson(a) == CanonicalizeJson(b) <==> SameUpToOrder(a, b)
  {
    CanonicalizeIsExact(a, b);
    if CanonicalizeJson(a) == CanonicalizeJson(b) {
      CanonicalizeGivesCanonical(a);
      CanonicalizeGivesCanonical(b);
      EmitReadsBack(Canonicalize(a), Canonicalize(b), "", "");
    }
  }

  lemma DefinitionJsonIsInjective(d: Definition, e: Definition)
    requires DefinitionJson(d) == DefinitionJson(e)
    ensures d == e
  {
    var ms, ns := DefinitionJson(d).members, DefinitionJson(e).members;
    assert ms[0] == ns[0] && ms[1] == ns[1] && ms[2] == ns[2];
  }

  /**
    What is hashed, read from the left: the definition's three members in this order, the
    canonical input, and, after a NUL if there is one, the idempotency key.
  */
  lemma KeyBytesRead(w: Work, idem: string)
    requires WellFormed(w.input)
    ensures match ReadValue(BuildUniqueHashCacheKey(w, idem))
            case None => false
            case Some((def, after)) =>
              && def.Object? && |def.members| == 3
              && def.members[0] == Member("id", Str(w.def.id))
              && def.members[1] == Member("version", if w.def.version.Some? then Str(w.def.version.value) else Null)
              && def.members[2] == Member("description", Str(w.def.description))
              && ReadValue(after) == Some((Canonicalize(w.input), if idem == "" then "" else [NUL] + idem))
    ensures forall c | c in Marshal(DefinitionJson(w.def)) + CanonicalizeJson(w.input) :: c >= ' '
  {
    var d, a := DefinitionJson(w.def), Canonicalize(w.input);
    CanonicalizeGivesCanonical(w.input);
    MarshalledInARow(d, a, Tail(idem));
    EmitReads(d, Emit(a, Tail(idem)));
    EmitReads(a, Tail(idem));
    EmitIsPrintable(d, "");
    EmitIsPrintable(a, "");
  }

  /** Two objects each followed by a value and a tail that is empty or starts with NUL read back in one way. */
  lemma ObjectValueTailReadsBack(d: Value, e: Value, a: Value, b: Value, x: string, y: string)
    requires d.Object? && e.Object? && WellFormed(d) && WellFormed(e) && WellFormed(a) && WellFormed(b)
    requires (x == "" || x[0] == NUL) && (y == "" || y[0] == NUL)
    requires Marshal(d) + Marshal(a) + x == Marshal(e) + Marshal(b) + y
    ensures d == e && a == b && x == y
  {
    MarshalledInARow(d, a, x);
    MarshalledInARow(e, b, y);
    EmitReadsBack(d, e, Emit(a, x), Emit(b, y));
    EmitReadsBack(a, b, x, y);
  }

  function Tail(idem: string): string { if idem == "" then "" else [NUL] + idem }

  lemma TailIsInjective(i: string, k: string)
    requires Tail(i) == Tail(k)
    ensures i == k
  {
    assert i != "" ==> Tail(i)[1..] == i;
    assert k != "" ==> Tail(k)[1..] == k;
  }

  /**
    Equal key bytes mean equal definition, equal canonical input and equal idempotency key,
    and conversely.  The definition ends itself, being an object, and no number can run
    into the NUL that precedes the idempotency key.
  */
  lemma KeyIsUnambiguous(v: Work, w: Work, i: string, k: string)
    requires WellFormed(v.input) && WellFormed(w.input)
    ensures BuildUniqueHashCacheKey(v, i) == BuildUniqueHashCacheKey(w, k)
        <==> v.def == w.def && Canonicalize(v.input) == Canonicalize(w.input) && i == k
  {
    if BuildUniqueHashCacheKey(v, i) == BuildUniqueHashCacheKey(w, k) {
      CanonicalizeGivesCanonical(v.input);
      CanonicalizeGivesCanonical(w.input);
      ObjectValueTailReadsBack(DefinitionJson(v.def), DefinitionJson(w.def),
                               Canonicalize(v.input), Canonicalize(w.input), Tail(i), Tail(k));
      DefinitionJsonIsInjective(v.def, w.def);
      TailIsInjective(i, k);
    }
  }

  ghost predicate Injective<A(!new), B(!new)>(f: A -> B) {
    forall a, b {:trigger f(a), f(b)} :: f(a) == f(b) ==> a == b
  }

  /** With a collision-free digest, the test that matches reports is equality of what was called. */
  lemma HashMatchIsSameCall(sha256: string -> string, v: Work, w: Work, i: string, k: string)
    requires Injective(sha256)
    requires WellFormed(v.input) && WellFormed(w.input) && UniqueNames(v.input) && UniqueNames(w.input)
    ensures sha256(BuildUniqueHashCacheKey(v, i)) == sha256(BuildUniqueHashCacheKey(w, k))
        <==> v.def == w.def && SameUpToOrder(v.input, w.input) && i == k
  {
    KeyIsUnambiguous(v, w, i, k);
    CanonicalizeIsExact(v.input, w.input);
  }

  /** The memo table of hashes, for any way of building key bytes. */
  class HashCache<!W> {
    const keyOf: (W, string) -> string
    const sha256: string -> string
    var entries: map<string, string>

    /** Every entry is the hash of its key. */
    ghost predicate Valid()
      reads this
    {
      forall k | k in entries :: entries[k] == sha256(k)
    }

    constructor (keyOf: (W, string) -> string, sha256: string -> string)
      ensures Valid() && this.keyOf == keyOf && this.sha256 == sha256 && entries == map[]
    {
      this.keyOf, this.sha256, this.entries := keyOf, sha256, map[];
    }

    /** The lookup returns what hashing the key directly would. */
    method ConstructUniqueHashFrom(w: W, idem: string) returns (hash: string)
      requires Valid()
      modifies this
      ensures Valid() && hash == sha256(keyOf(w, idem))
      ensures entries == old(entries)[keyOf(w, idem) := hash]
    {
      var key := keyOf(w, idem);
      if key in entries {
        hash := entries[key];
        assert entries == entries[key := hash];
        return;
      }
      hash := sha256(key);
      entries := entries[key := hash];
    }
  }

  type CanonicalValue = j: Value | WellFormed(j) && IsCanonical(j) witness Null

  /** Calls identified by definition and canonical input: the work the engine runs on. */
  datatype CanonicalWork = CanonicalWork(def: Definition, input: CanonicalValue)

  function CanonicalKey(w: CanonicalWork, idem: string): string {
    BuildUniqueHashCacheKey(Work(w.def, w.input), idem)
  }

  /** The key bytes tell canonical calls apart, so the engine's matching may be read as equality of keys. */
  lemma CanonicalKeyIsInjective(v: CanonicalWork, w: CanonicalWork, i: string, k: string)
    ensures CanonicalKey(v, i) == CanonicalKey(w, k) <==> v == w && i == k
  {
    KeyIsUnambiguous(Work(v.def, v.input), Work(w.def, w.input), i, k);
    CanonicalIsFixed(v.input);
    CanonicalIsFixed(w.input);
  }
}
