/** Contract types with versions and labels: their text form, their grouping key, and duplicates. */
module TypesAndVersions {
  import opened Prelude
  import opened Text
  import opened StableSorting

  // ----- Labels -----

  type LabelSet = set<string>

  lemma LessIsOrder()
    ensures StrictWeakOrder(Less)
  {
    forall a, b ensures Less(a, b) ==> !Less(b, a) {
      if Less(a, b) { LessAsymmetric(a, b); }
    }
    forall a, b, c ensures Less(c, a) ==> Less(b, a) || Less(c, b) {
      if Less(c, a) && !Less(c, b) {
        LessTotal(c, b);
        if c != b { LessTransitive(b, c, a); }
      }
    }
  }

  method NewLabelSet(labels: seq<string>) returns (s: LabelSet)
    ensures s == set l | l in labels
  {
    s := {};
    for i := 0 to |labels|
      invariant s == set l | l in labels[..i]
    {
      s := s + {labels[i]};
    }
  }

  /** The labels in ascending order. */
  ghost function Listed(labels: LabelSet): seq<string>
    decreases |labels|
  {
    if labels == {} then []
    else
      var l :| l in labels;
      InsertLast(Less, Listed(labels - {l}), l)
  }

  lemma {:induction false} ListedIsSorted(labels: LabelSet)
    ensures Sorted(Less, Listed(labels)) && multiset(Listed(labels)) == multiset(labels)
    decreases |labels|
  {
    LessIsOrder();
    if labels != {} {
      var l :| l in labels && Listed(labels) == InsertLast(Less, Listed(labels - {l}), l);
      ListedIsSorted(labels - {l});
      InsertLastSorts(Less, Listed(labels - {l}), l);
      MultisetOneMore(labels - {l}, l);
      assert labels - {l} + {l} == labels;
    }
  }

  /** Any sorted list of the labels is that list. */
  lemma ListedIsOnly(labels: LabelSet, list: seq<string>)
    requires Sorted(Less, list) && multiset(list) == multiset(labels)
    ensures list == Listed(labels)
  {
    LessIsOrder();
    ListedIsSorted(labels);
    forall x, y | x in list && y in list && !Less(x, y) && !Less(y, x) ensures x == y { LessTotal(x, y); }
    SortedHaveOneOrder(Less, list, Listed(labels));
  }

  lemma ListedAscends(labels: LabelSet)
    ensures var list := Listed(labels);
            multiset(list) == multiset(labels) && forall i, j | 0 <= i < j < |list| :: Ascends(list[i], list[j])
  {
    ListedIsSorted(labels);
    var list := Listed(labels);
    forall i, j | 0 <= i < j < |list| ensures Ascends(list[i], list[j]) {
      LessTotal(list[i], list[j]);
      LessIsAscends(list[i], list[j]);
      assert list[i] != list[j] by { if list[i] == list[j] { TwiceInMultiset(list, i, j); } }
    }
  }

  lemma TwiceInMultiset<T>(s: seq<T>, i: nat, j: nat)
    requires i < j < |s| && s[i] == s[j]
    ensures multiset(s)[s[i]] >= 2
  {
    assert s == s[..i] + [s[i]] + s[i + 1..j] + [s[j]] + s[j + 1..];
  }

  /** Collects the labels in whatever order the map yields them. */
  method Collect(labels: LabelSet) returns (collected: seq<string>)
    ensures multiset(collected) == multiset(labels)
  {
    collected := [];
    var pending := labels;
    while pending != {}
      invariant pending <= labels && multiset(collected) == multiset(labels - pending)
      decreases pending
    {
      var l :| l in pending;
      assert labels - (pending - {l}) == labels - pending + {l};
      MultisetOneMore(labels - pending, l);
      collected, pending := collected + [l], pending - {l};
    }
    assert labels - pending == labels;
  }

  /** The labels, sorted in place. */
  method List(labels: LabelSet) returns (list: seq<string>)
    ensures list == Listed(labels)
    ensures multiset(list) == multiset(labels)
    ensures forall i, j | 0 <= i < j < |list| :: Ascends(list[i], list[j])
  {
    var collected := Collect(labels);
    var items := new string[|collected|](i requires 0 <= i < |collected| => collected[i]);
    assert items[..] == collected;
    SortInPlace(Less, items);
    LessIsOrder();
    StableSortPermutes(Less, collected);
    ListedIsOnly(labels, items[..]);
    ListedAscends(labels);
    return items[..];
  }

  ghost function LabelsText(labels: LabelSet): string {
    Join(Listed(labels), ' ')
  }

  // ----- Words -----

  /** White space as the field splitter sees it. */
  predicate IsSpace(c: char) {
    var n := c as int;
    || 9 <= n <= 13 || n == 0x20 || n == 0x85 || n == 0xA0 || n == 0x1680
    || 0x2000 <= n <= 0x200A || n == 0x2028 || n == 0x2029 || n == 0x202F || n == 0x205F || n == 0x3000
  }

  /** Non-empty and free of white space. */
  predicate IsWord(s: string) {
    s != "" && forall i | 0 <= i < |s| :: !IsSpace(s[i])
  }

  /** The words of a text; `word` is the one being read. */
  function FieldsFrom(s: string, word: string): seq<string> {
    if s == "" then (if word == "" then [] else [word])
    else if IsSpace(s[0]) then (if word == "" then [] else [word]) + FieldsFrom(s[1..], "")
    else FieldsFrom(s[1..], word + [s[0]])
  }

  function Fields(s: string): seq<string> { FieldsFrom(s, "") }

  lemma {:induction false} WordThenRest(w: string, rest: string, word: string)
    requires forall i | 0 <= i < |w| :: !IsSpace(w[i])
    requires rest == "" || IsSpace(rest[0])
    requires word + w != ""
    ensures FieldsFrom(w + rest, word) == [word + w] + (if rest == "" then [] else Fields(rest[1..]))
  {
    if w == "" {
      assert w + rest == rest && word + w == word;
    } else {
      assert (w + rest)[0] == w[0] && (w + rest)[1..] == w[1..] + rest;
      WordThenRest(w[1..], rest, word + [w[0]]);
      assert word + [w[0]] + w[1..] == word + w by { assert w == [w[0]] + w[1..]; }
    }
  }

  lemma FieldsOfWord(w: string, rest: string)
    requires IsWord(w)
    ensures Fields(w + " " + rest) == [w] + Fields(rest)
    ensures Fields(w) == [w]
  {
    assert w + " " + rest == w + (" " + rest) && (" " + rest)[1..] == rest;
    WordThenRest(w, " " + rest, "");
    WordThenRest(w, "", "");
    assert "" + w == w && w + "" == w;
  }

  /** Words joined by blanks split into the same words. */
  lemma {:induction false} FieldsOfJoin(words: seq<string>)
    requires forall i | 0 <= i < |words| :: IsWord(words[i])
    ensures Fields(Join(words, ' ')) == words
  {
    if |words| == 1 {
      FieldsOfWord(words[0], "");
    } else if |words| > 1 {
      FieldsOfWord(words[0], Join(words[1..], ' '));
      FieldsOfJoin(words[1..]);
      assert words == [words[0]] + words[1..];
    }
  }

  // ----- Type, version, labels -----

  /** `V` is the library's version, printed and parsed by a `VersionCodec`. */
  datatype TypeAndVersion<+V> = TypeAndVersion(typ: string, version: V, labels: LabelSet)

  datatype VersionCodec<!V> = VersionCodec(print_: V -> string, parse: string -> Option<V>, same: (V, V) -> bool)

  /** A printed version is one word, reads back, and equals itself. */
  ghost predicate Lawful<V(!new)>(c: VersionCodec<V>) {
    forall v {:trigger c.print_(v)} :: IsWord(c.print_(v)) && c.parse(c.print_(v)) == Some(v) && c.same(v, v)
  }

  ghost function Print<V>(c: VersionCodec<V>, tv: TypeAndVersion<V>): string {
    if tv.labels == {} then tv.typ + " " + c.print_(tv.version)
    else tv.typ + " " + c.print_(tv.version) + " " + LabelsText(tv.labels)
  }

  function Parse<V>(c: VersionCodec<V>, s: string): Option<TypeAndVersion<V>> {
    var parts := Fields(s);
    if |parts| < 2 then None
    else
      match c.parse(parts[1])
      case None => None
      case Some(v) => Some(TypeAndVersion(parts[0], v, set l | l in parts[2..]))
  }

  /** Equality: types, versions by precedence, labels as sets. */
  predicate Equal<V>(c: VersionCodec<V>, a: TypeAndVersion<V>, b: TypeAndVersion<V>) {
    a.typ == b.typ && c.same(a.version, b.version) && a.labels == b.labels
  }

  predicate WordLabels(labels: LabelSet) {
    forall l | l in labels :: IsWord(l)
  }

  lemma ListedWords(labels: LabelSet)
    requires WordLabels(labels)
    ensures Fields(LabelsText(labels)) == Listed(labels)
    ensures forall l :: l in Listed(labels) <==> l in labels
  {
    ListedIsSorted(labels);
    var list := Listed(labels);
    forall l ensures l in list <==> l in labels { assert l in list <==> l in multiset(list); }
    forall i | 0 <= i < |list| ensures IsWord(list[i]) { assert list[i] in list; }
    FieldsOfJoin(list);
  }

  /** Type, version and labels in ascending order, with one blank between. */
  lemma PrintIsJoined<V>(c: VersionCodec<V>, tv: TypeAndVersion<V>)
    ensures Print(c, tv) == Join([tv.typ, c.print_(tv.version)] + Listed(tv.labels), ' ')
  {
    ListedIsSorted(tv.labels);
    var v, list := c.print_(tv.version), Listed(tv.labels);
    assert tv.labels == {} <==> list == [] by {
      assert |list| == |multiset(list)| == |multiset(tv.labels)|;
    }
    var all := [tv.typ, v] + list;
    assert all[1..] == [v] + list && ([v] + list)[1..] == list;
    if list == [] {
      assert Join([v], ' ') == v;
    } else {
      assert Join(all, ' ') == tv.typ + [' '] + (v + [' '] + Join(list, ' '));
    }
  }

  /** What is printed parses back to what was printed, when type and labels are words. */
  lemma PrintedParsesBack<V(!new)>(c: VersionCodec<V>, tv: TypeAndVersion<V>)
    requires Lawful(c) && IsWord(tv.typ) && WordLabels(tv.labels)
    ensures Print(c, tv) == Join([tv.typ, c.print_(tv.version)] + Listed(tv.labels), ' ')
    ensures Fields(Print(c, tv)) == [tv.typ, c.print_(tv.version)] + Listed(tv.labels)
    ensures Parse(c, Print(c, tv)) == Some(tv)
    ensures Equal(c, Parse(c, Print(c, tv)).value, tv)
  {
    var v := c.print_(tv.version);
    PrintIsJoined(c, tv);
    ListedWords(tv.labels);
    var text := LabelsText(tv.labels);
    FieldsOfWord(tv.typ, v);
    FieldsOfWord(tv.typ, v + " " + text);
    FieldsOfWord(v, text);
    assert tv.typ + " " + v + " " + text == tv.typ + " " + (v + " " + text);
    var parts := Fields(Print(c, tv));
    assert parts[0] == tv.typ && parts[1] == v;
    if tv.labels == {} {
      assert Listed(tv.labels) == [] && parts == [tv.typ, v];
    } else {
      assert parts == [tv.typ] + ([v] + Listed(tv.labels)) && parts[2..] == Listed(tv.labels);
    }
    assert (set l | l in parts[2..]) == tv.labels;
  }

  // ----- Grouping -----

  datatype TvKey = TvKey(typ: string, version: string, labels: string)

  ghost function KeyOf<V>(c: VersionCodec<V>, tv: TypeAndVersion<V>): TvKey {
    TvKey(tv.typ, c.print_(tv.version), LabelsText(tv.labels))
  }

  method MakeKey<V>(c: VersionCodec<V>, tv: TypeAndVersion<V>) returns (k: TvKey)
    ensures k == KeyOf(c, tv)
  {
    var list := List(tv.labels);
    k := TvKey(tv.typ, c.print_(tv.version), Join(list, ' '));
  }

  predicate BlankFree(labels: LabelSet) {
    forall l | l in labels :: ' ' !in l
  }

  lemma ListedMembers(labels: LabelSet)
    ensures forall l :: l in Listed(labels) <==> l in labels
  {
    ListedIsSorted(labels);
    forall l ensures l in Listed(labels) <==> l in labels {
      assert l in Listed(labels) <==> l in multiset(Listed(labels));
    }
  }

  lemma LabelsTextSplits(labels: LabelSet)
    requires BlankFree(labels)
    ensures Split(LabelsText(labels), ' ') == if labels == {} then [""] else Listed(labels)
    ensures labels == {} <==> Listed(labels) == []
  {
    ListedMembers(labels);
    var list := Listed(labels);
    forall i | 0 <= i < |list| ensures ' ' !in list[i] { assert list[i] in list; }
    SplitJoin(list, ' ');
    if labels != {} {
      var l :| l in labels;
      assert l in list;
    }
  }

  /** The one pair of different blank-free label sets with one text: no label, and the empty label. */
  predicate EmptyLabelPair(a: LabelSet, b: LabelSet) {
    (a == {} && b == {""}) || (a == {""} && b == {})
  }

  lemma OneListedIsSingleton(labels: LabelSet, l: string)
    requires Listed(labels) == [l]
    ensures labels == {l}
  {
    ListedMembers(labels);
    assert l in labels by { assert l in [l]; }
    forall m | m in labels ensures m == l { assert m in [l]; }
  }

  lemma LabelTextsAgreeIff(a: LabelSet, b: LabelSet)
    requires BlankFree(a) && BlankFree(b)
    ensures LabelsText(a) == LabelsText(b) <==> a == b || EmptyLabelPair(a, b)
  {
    LabelsTextSplits(a);
    LabelsTextSplits(b);
    OneLabelText("");
    assert LabelsText({}) == "";
    if LabelsText(a) == LabelsText(b) {
      if a == {} && b != {} {
        OneListedIsSingleton(b, "");
      } else if a != {} && b == {} {
        OneListedIsSingleton(a, "");
      } else {
        ListedMembers(a);
        ListedMembers(b);
        assert forall l :: l in a <==> l in b;
      }
    }
  }

  /**
    With blank-free labels, whatever other white space is in them, keys agree exactly on
    type, printed version and label set, except that no label and the empty label agree too.
  */
  lemma KeysAgreeIff<V(!new)>(c: VersionCodec<V>, a: TypeAndVersion<V>, b: TypeAndVersion<V>)
    requires BlankFree(a.labels) && BlankFree(b.labels)
    ensures KeyOf(c, a) == KeyOf(c, b)
       <==> && a.typ == b.typ && c.print_(a.version) == c.print_(b.version)
            && (a.labels == b.labels || EmptyLabelPair(a.labels, b.labels))
  {
    LabelTextsAgreeIff(a.labels, b.labels);
  }

  lemma OneLabelText(l: string)
    ensures LabelsText({l}) == l
  {
    assert multiset([l]) == multiset({l});
    ListedIsOnly({l}, [l]);
  }

  lemma TwoLabelsText(l: string, m: string)
    requires Less(l, m)
    ensures LabelsText({l, m}) == l + " " + m
  {
    LessIrreflexive(l);
    LessAsymmetric(l, m);
    assert multiset([l, m]) == multiset({l, m});
    ListedIsOnly({l, m}, [l, m]);
    assert [l, m][1..] == [m] && Join([m], ' ') == m;
    assert Join([l, m], ' ') == l + [' '] + Join([l, m][1..], ' ');
  }

  /** Two blank-free labels joined by a blank make one label with the key of the two exactly if they come in order. */
  lemma BlankInLabelClashesIff<V(!new)>(c: VersionCodec<V>, typ: string, v: V, l: string, m: string)
    requires ' ' !in l && ' ' !in m && l != m
    ensures var a, b := TypeAndVersion(typ, v, {l + " " + m}), TypeAndVersion(typ, v, {l, m});
            a != b && (KeyOf(c, a) == KeyOf(c, b) <==> Less(l, m))
  {
    var joined := l + " " + m;
    OneLabelText(joined);
    LessTotal(l, m);
    assert joined[|l|] == ' ' && ' ' in joined;
    assert joined in {joined} && joined !in {l, m};
    if Less(l, m) {
      TwoLabelsText(l, m);
    } else {
      TwoLabelsText(m, l);
      assert {l, m} == {m, l};
      SplitAfterPart(l, m, ' ');
      SplitAfterPart(m, l, ' ');
      assert Split(joined, ' ')[0] == l;
      assert Split(m + " " + l, ' ')[0] == m;
    }
  }

  /** The addresses whose entry has a key. */
  ghost function Holders(keys: map<string, TvKey>, k: TvKey): set<string> {
    set a | a in keys && keys[a] == k
  }

  ghost function KeysOf<V>(c: VersionCodec<V>, addrs: map<string, TypeAndVersion<V>>): map<string, TvKey> {
    map a | a in addrs :: KeyOf(c, addrs[a])
  }

  /** Each group lists the holders of its key, each once, and only keys with holders have a group. */
  ghost predicate Groups(keys: map<string, TvKey>, grouped: map<TvKey, seq<string>>) {
    forall k :: (k in grouped <==> Holders(keys, k) != {})
             && (k in grouped ==> multiset(grouped[k]) == multiset(Holders(keys, k)))
  }

  lemma HoldersOneMore(keys: map<string, TvKey>, a: string, k: TvKey, x: TvKey)
    requires a !in keys
    ensures Holders(keys[a := k], x) == Holders(keys, x) + (if x == k then {a} else {})
    ensures a !in Holders(keys, x)
  {
  }

  lemma MultisetOneMore(s: set<string>, a: string)
    requires a !in s
    ensures multiset(s + {a}) == multiset(s) + multiset{a}
  {
  }

  lemma GroupOneMore(keys: map<string, TvKey>, grouped: map<TvKey, seq<string>>, a: string, k: TvKey)
    requires Groups(keys, grouped) && a !in keys
    ensures var list := if k in grouped then grouped[k] else [];
            Groups(keys[a := k], grouped[k := list + [a]])
  {
    var list := if k in grouped then grouped[k] else [];
    var grouped' := grouped[k := list + [a]];
    assert multiset(list) == multiset(Holders(keys, k));
    forall x
      ensures x in grouped' <==> Holders(keys[a := k], x) != {}
      ensures x in grouped' ==> multiset(grouped'[x]) == multiset(Holders(keys[a := k], x))
    {
      HoldersOneMore(keys, a, k, x);
      if x == k {
        MultisetOneMore(Holders(keys, k), a);
        assert a in Holders(keys[a := k], k);
      }
    }
  }

  /** Groups addresses by key, taking them in whatever order the map yields them. */
  method ToTypeAndVersionMap<V>(
      c: VersionCodec<V>, addrs: map<string, TypeAndVersion<V>>) returns (grouped: map<TvKey, seq<string>>)
    ensures Groups(KeysOf(c, addrs), grouped)
  {
    grouped := map[];
    var pending := addrs.Keys;
    ghost var done: map<string, TvKey> := map[];
    while pending != {}
      invariant pending <= addrs.Keys && done == KeysOf(c, addrs) - pending
      invariant Groups(done, grouped)
      decreases pending
    {
      var a :| a in pending;
      var k := MakeKey(c, addrs[a]);
      GroupOneMore(done, grouped, a, k);
      var list := if k in grouped then grouped[k] else [];
      grouped, pending, done := grouped[k := list + [a]], pending - {a}, done[a := k];
    }
    assert done == KeysOf(c, addrs);
  }

  /** How many addresses hold the key of an entry. */
  ghost function Count<V>(c: VersionCodec<V>, keys: map<string, TvKey>, tv: TypeAndVersion<V>): nat {
    |Holders(keys, KeyOf(c, tv))|
  }

  /** How many addresses hold the key of each bundle entry. */
  ghost function Counts<V>(c: VersionCodec<V>, keys: map<string, TvKey>, bundle: seq<TypeAndVersion<V>>): seq<nat> {
    seq(|bundle|, i requires 0 <= i < |bundle| => Count(c, keys, bundle[i]))
  }

  predicate FirstAboveOne(counts: seq<nat>, i: int) {
    0 <= i < |counts| && counts[i] > 1 && forall j | 0 <= j < i :: counts[j] <= 1
  }

  /** How long each group is. */
  ghost predicate Sizes(keys: map<string, TvKey>, grouped: map<TvKey, seq<string>>) {
    forall k :: |Holders(keys, k)| == if k in grouped then |grouped[k]| else 0
  }

  /** Checks a bundle against the groups of some addresses. */
  method CheckGroups<V>(c: VersionCodec<V>, ghost keys: map<string, TvKey>, grouped: map<TvKey, seq<string>>,
                        bundle: seq<TypeAndVersion<V>>)
    returns (r: Result<bool, TvKey>)
    requires Sizes(keys, grouped) && forall k | k in grouped :: grouped[k] != []
    ensures var counts := Counts(c, keys, bundle);
            && (r.Err? <==> exists i :: 0 <= i < |counts| && counts[i] > 1)
            && (r.Ok? ==> (r.value <==> forall i | 0 <= i < |counts| :: counts[i] == 1))
            && (r.Err? ==> exists i :: 0 <= i < |counts| && FirstAboveOne(counts, i) && r.error == KeyOf(c, bundle[i]))
  {
    var found: seq<TypeAndVersion<V>> := [];
    ghost var counts := Counts(c, keys, bundle);
    for i := 0 to |bundle|
      invariant forall j | 0 <= j < i :: counts[j] <= 1
      invariant |found| <= i
      invariant |found| == i <==> forall j | 0 <= j < i :: counts[j] == 1
    {
      var key := MakeKey(c, bundle[i]);
      var ok := key in grouped;
      var matched := if ok then grouped[key] else [];
      assert |matched| == counts[i];
      if ok { found := found + [bundle[i]]; }
      if |matched| > 1 {
        assert FirstAboveOne(counts, i);
        return Err(key);
      }
    }
    return Ok(|found| == |bundle|);
  }

  /**
    Fails exactly when some bundle entry's key has two addresses, naming the first such key;
    otherwise answers whether every bundle entry's key has exactly one.
  */
  method EnsureDeduped<V>(c: VersionCodec<V>, addrs: map<string, TypeAndVersion<V>>, bundle: seq<TypeAndVersion<V>>)
    returns (r: Result<bool, TvKey>)
    ensures var counts := Counts(c, KeysOf(c, addrs), bundle);
            && (r.Err? <==> exists i :: 0 <= i < |counts| && counts[i] > 1)
            && (r.Ok? ==> (r.value <==> forall i | 0 <= i < |counts| :: counts[i] == 1))
            && (r.Err? ==> exists i :: 0 <= i < |counts| && FirstAboveOne(counts, i) && r.error == KeyOf(c, bundle[i]))
  {
    var grouped := ToTypeAndVersionMap(c, addrs);
    GroupSizes(KeysOf(c, addrs), grouped);
    r := CheckGroups(c, KeysOf(c, addrs), grouped, bundle);
  }

  lemma GroupSize(keys: map<string, TvKey>, grouped: map<TvKey, seq<string>>, k: TvKey)
    requires Groups(keys, grouped)
    ensures k in grouped <==> |Holders(keys, k)| > 0
    ensures k in grouped ==> |grouped[k]| == |Holders(keys, k)|
  {
    if k in grouped {
      assert |grouped[k]| == |multiset(grouped[k])| == |multiset(Holders(keys, k))|;
      MultisetOfSet(Holders(keys, k));
      assert Holders(keys, k) != {};
    }
  }

  lemma GroupSizes(keys: map<string, TvKey>, grouped: map<TvKey, seq<string>>)
    requires Groups(keys, grouped)
    ensures Sizes(keys, grouped) && forall k | k in grouped :: grouped[k] != []
  {
    forall k ensures |Holders(keys, k)| == if k in grouped then |grouped[k]| else 0 { GroupSize(keys, grouped, k); }
    forall k | k in grouped ensures grouped[k] != [] { GroupSize(keys, grouped, k); }
  }

  lemma {:induction false} MultisetOfSet<T>(s: set<T>)
    ensures |multiset(s)| == |s|
  {
    if s != {} {
      var x :| x in s;
      MultisetOfSet(s - {x});
      assert multiset(s) == multiset(s - {x}) + multiset{x};
    }
  }
}
