/** The address book: addresses of each chain, saved, merged and removed. */
module AddressBook {
  import opened Prelude
  import opened TypesAndVersions

  datatype Family = Evm | Other

  /** The chain list and the EVM address functions of the libraries. `zero` is the printed zero address. */
  datatype Chains = Chains(
    family: nat -> Option<Family>,
    isHexAddress: string -> bool,
    checksummed: string -> string,
    zero: string)
  {
    /** Checksumming gives a hex address that is its own checksummed form. */
    ghost predicate Lawful() {
      && (forall a {:trigger checksummed(a)} :: isHexAddress(a) ==>
            isHexAddress(checksummed(a)) && checksummed(checksummed(a)) == checksummed(a))
      && !isHexAddress("")
    }

    /** The form an address is stored in, or why it is refused. */
    function Normalize(chain: nat, address: string): Result<string, SaveError> {
      match family(chain)
      case None => Err(InvalidChainSelector)
      case Some(Evm) =>
        if address == "" || address == zero || !isHexAddress(address) then Err(InvalidAddress)
        else Ok(checksummed(address))
      case Some(Other) => Ok(address)
    }
  }

  datatype SaveError = InvalidChainSelector | InvalidAddress | EmptyType | AlreadyExists

  type Entries<V> = map<nat, map<string, TypeAndVersion<V>>>

  /** What the book holds for an address on a chain. */
  function Entry<V>(m: Entries<V>, c: nat, a: string): Option<TypeAndVersion<V>> {
    if c in m && a in m[c] then Some(m[c][a]) else None
  }

  function Put<V>(m: Entries<V>, c: nat, a: string, tv: TypeAndVersion<V>): Entries<V> {
    m[c := (if c in m then m[c] else map[])[a := tv]]
  }

  /** What saving alone can have stored at an address: a known chain, a checksummed EVM address, a non-empty type. */
  ghost predicate SavedAt<V>(ch: Chains, c: nat, a: string, e: Option<TypeAndVersion<V>>) {
    e.Some? ==>
      && ch.family(c).Some?
      && (ch.family(c) == Some(Evm) ==> ch.isHexAddress(a) && ch.checksummed(a) == a)
      && e.value.typ != ""
  }

  ghost predicate Saved<V>(ch: Chains, m: Entries<V>) {
    forall c: nat, a: string {:trigger Entry(m, c, a)} :: SavedAt(ch, c, a, Entry(m, c, a))
  }

  /** Saving refuses the zero address as printed, but other spellings of it are checksummed to it. */
  predicate IsZero(ch: Chains, c: nat, a: string) {
    ch.family(c) == Some(Evm) && a == ch.zero
  }

  /** No address of `g` is in `f`, and none is a zero address. */
  ghost predicate Mergeable<V>(ch: Chains, f: Entries<V>, g: Entries<V>) {
    forall c: nat, a: string {:trigger Entry(g, c, a)} ::
      Entry(g, c, a).Some? ==> Entry(f, c, a).None? && !IsZero(ch, c, a)
  }

  function Or<T>(x: Option<T>, y: Option<T>): Option<T> {
    if x.Some? then x else y
  }

  /** The entries of both books, where those of `f` come first. */
  ghost predicate IsUnion<V>(m: Entries<V>, f: Entries<V>, g: Entries<V>) {
    forall c: nat, a: string {:trigger Entry(m, c, a)} :: Entry(m, c, a) == Or(Entry(f, c, a), Entry(g, c, a))
  }

  /** The entries of `f` less those of `g`. */
  ghost predicate IsDifference<V>(m: Entries<V>, f: Entries<V>, g: Entries<V>) {
    forall c: nat, a: string {:trigger Entry(m, c, a)} ::
      Entry(m, c, a) == (if Entry(g, c, a).Some? then None else Entry(f, c, a))
  }

  ghost predicate SameEntries<V>(m: Entries<V>, f: Entries<V>) {
    forall c: nat, a: string {:trigger Entry(m, c, a)} :: Entry(m, c, a) == Entry(f, c, a)
  }

  /** Everything of `f` is still in `m`, and everything else in `m` is from `g`. */
  ghost predicate Extends<V>(m: Entries<V>, f: Entries<V>, g: Entries<V>) {
    forall c: nat, a: string {:trigger Entry(m, c, a)} ::
      Entry(m, c, a) == Entry(f, c, a) || (Entry(f, c, a).None? && Entry(m, c, a) == Entry(g, c, a))
  }

  /** The chains a book has an address on. A removal can leave a chain without any. */
  ghost function Populated<V>(m: Entries<V>): set<nat> {
    set c | c in m && m[c] != map[]
  }

  lemma EntryOfPut<V>(m: Entries<V>, c: nat, a: string, tv: TypeAndVersion<V>, c': nat, a': string)
    ensures Entry(Put(m, c, a, tv), c', a') == if c' == c && a' == a then Some(tv) else Entry(m, c', a')
  {
  }

  class AddressBookMap<!V(!new)> {
    const ch: Chains
    var addressesByChain: Entries<V>

    ghost predicate Valid()
      reads this
    {
      ch.Lawful() && Saved(ch, addressesByChain)
    }

    constructor (ch: Chains)
      requires ch.Lawful()
      ensures Valid() && this.ch == ch && addressesByChain == map[]
    {
      this.ch, addressesByChain := ch, map[];
    }

    /** Stores an entry under its normalised address, or changes nothing. */
    method Save(chain: nat, address: string, tv: TypeAndVersion<V>) returns (err: Option<SaveError>)
      requires Valid()
      modifies this
      ensures Valid()
      ensures var n := ch.Normalize(chain, address);
              err == if n.Err? then Some(n.error)
                     else if tv.typ == "" then Some(EmptyType)
                     else if Entry(old(addressesByChain), chain, n.value).Some? then Some(AlreadyExists)
                     else None
      ensures err.Some? ==> addressesByChain == old(addressesByChain)
      ensures err.None? ==>
                addressesByChain == Put(old(addressesByChain), chain, ch.Normalize(chain, address).value, tv)
      ensures var evm := ch.family(chain) == Some(Evm);
              var stored := if evm then ch.checksummed(address) else address;
              && (err == Some(InvalidChainSelector) <==> ch.family(chain).None?)
              && (err == Some(InvalidAddress) <==>
                    evm && (address == "" || address == ch.zero || !ch.isHexAddress(address)))
              && (err.None? ==> forall c: nat, a: string {:trigger Entry(addressesByChain, c, a)} ::
                    Entry(addressesByChain, c, a) ==
                      if c == chain && a == stored then Some(tv) else Entry(old(addressesByChain), c, a))
    {
      var stored := address;
      var family := ch.family(chain);
      if family.None? { return Some(InvalidChainSelector); }
      if family.value == Evm {
        if address == "" || address == ch.zero { return Some(InvalidAddress); }
        if ch.isHexAddress(address) {
          stored := ch.checksummed(address);
        } else {
          return Some(InvalidAddress);
        }
      }
      if tv.typ == "" { return Some(EmptyType); }
      if chain in addressesByChain && stored in addressesByChain[chain] { return Some(AlreadyExists); }
      ghost var was := addressesByChain;
      if chain !in addressesByChain {
        addressesByChain := addressesByChain[chain := map[]];
      }
      addressesByChain := addressesByChain[chain := addressesByChain[chain][stored := tv]];
      assert addressesByChain == Put(was, chain, stored, tv);
      PutKeepsSaved(ch, was, chain, stored, tv);
      forall c: nat, a: string
        ensures Entry(addressesByChain, c, a) == if c == chain && a == stored then Some(tv) else Entry(was, c, a)
      {
        EntryOfPut(was, chain, stored, tv, c, a);
      }
      return None;
    }

    /** Saves one chain's entries of a saved book, in whatever order its map yields them. */
    method MergeChain(chain: nat, entries: map<string, TypeAndVersion<V>>) returns (err: Option<SaveError>)
      requires Valid() && Saved(ch, map[chain := entries])
      modifies this
      ensures Valid()
      ensures err.None? <==> Mergeable(ch, old(addressesByChain), map[chain := entries])
      ensures err.None? ==> IsUnion(addressesByChain, old(addressesByChain), map[chain := entries])
      ensures err.None? ==> addressesByChain.Keys == old(addressesByChain.Keys) + Populated(map[chain := entries])
      ensures Extends(addressesByChain, old(addressesByChain), map[chain := entries])
    {
      var pending := entries.Keys;
      ghost var was, source := addressesByChain, map[chain := entries];
      while pending != {}
        invariant Valid() && pending <= entries.Keys
        invariant Mergeable(ch, was, map[chain := entries - pending])
        invariant IsUnion(addressesByChain, was, map[chain := entries - pending])
        invariant addressesByChain.Keys == was.Keys + Populated(map[chain := entries - pending])
        decreases pending
      {
        var a :| a in pending;
        ghost var before := addressesByChain;
        SavedNormalizes(ch, chain, entries, a);
        assert Entry(source, chain, a) == Some(entries[a]);
        assert Entry(before, chain, a) == Or(Entry(was, chain, a), Entry(map[chain := entries - pending], chain, a));
        err := Save(chain, a, entries[a]);
        if err.Some? {
          UnionExtends(addressesByChain, was, chain, entries, pending);
          return;
        }
        OneMoreSaved(ch, before, addressesByChain, was, chain, entries, pending, a);
        OneMoreChain(before, addressesByChain, was, chain, entries, pending, a);
        pending := pending - {a};
      }
      assert entries - {} == entries;
      return None;
    }

    /**
      Adds all entries of another book.  For a book made by saving it succeeds exactly when
      no normalised pair of chain and address is in both and the other book holds no zero
      address; the result is then the union, whatever order the maps are walked in.  A
      failure can leave some of the entries added.
    */
    method Merge(other: AddressBookMap<V>) returns (err: Option<SaveError>)
      requires Valid() && other.Valid() && other.ch == ch
      modifies this
      ensures Valid()
      ensures err.None? <==> Mergeable(ch, old(addressesByChain), old(other.addressesByChain))
      ensures err.None? ==> IsUnion(addressesByChain, old(addressesByChain), old(other.addressesByChain))
      ensures err.None? ==> addressesByChain.Keys == old(addressesByChain.Keys) + Populated(old(other.addressesByChain))
      ensures Extends(addressesByChain, old(addressesByChain), old(other.addressesByChain))
    {
      var addresses := other.addressesByChain;
      ghost var was := addressesByChain;
      var pending := addresses.Keys;
      while pending != {}
        invariant Valid() && pending <= addresses.Keys
        invariant Mergeable(ch, was, addresses - pending)
        invariant IsUnion(addressesByChain, was, addresses - pending)
        invariant addressesByChain.Keys == was.Keys + Populated(addresses - pending)
        decreases pending
      {
        var chain :| chain in pending;
        ChainOf(ch, addresses, chain);
        ghost var before := addressesByChain;
        err := MergeChain(chain, addresses[chain]);
        ChainMerged(ch, was, before, addressesByChain, addresses, pending, chain);
        if err.Some? { return; }
        PopulatedOneMore(addresses, pending, chain);
        pending := pending - {chain};
      }
      assert addresses - {} == addresses;
      return None;
    }

    /** Removes all entries of another book, or, if one of them is missing, nothing. */
    method Remove(other: AddressBookMap<V>) returns (ok: bool)
      requires Valid()
      modifies this
      ensures Valid()
      ensures ok <==> forall c: nat, a: string {:trigger Entry(old(other.addressesByChain), c, a)} ::
                        Entry(old(other.addressesByChain), c, a).Some? ==> Entry(old(addressesByChain), c, a).Some?
      ensures !ok ==> addressesByChain == old(addressesByChain)
      ensures ok ==> IsDifference(addressesByChain, old(addressesByChain), old(other.addressesByChain))
      ensures addressesByChain.Keys == old(addressesByChain.Keys)
    {
      var addresses := other.addressesByChain;
      ok := Contains(addresses);
      if !ok { return; }
      ghost var was := addressesByChain;
      var pending := addresses.Keys;
      while pending != {}
        invariant pending <= addresses.Keys && addressesByChain.Keys == was.Keys
        invariant IsDifference(addressesByChain, was, addresses - pending)
        decreases pending
      {
        var chain :| chain in pending;
        ghost var before := addressesByChain;
        if chain in addressesByChain {
          addressesByChain := addressesByChain[chain := addressesByChain[chain] - addresses[chain].Keys];
        }
        ChainRemoved(was, before, addressesByChain, addresses, pending, chain);
        pending := pending - {chain};
      }
      assert addresses - {} == addresses;
      forall c: nat, a: string ensures SavedAt(ch, c, a, Entry(addressesByChain, c, a)) {
        assert SavedAt(ch, c, a, Entry(was, c, a));
      }
    }

    /** The first walk of a removal: is every entry's address here? */
    method Contains(addresses: Entries<V>) returns (ok: bool)
      ensures ok <==> forall c: nat, a: string {:trigger Entry(addresses, c, a)} ::
                        Entry(addresses, c, a).Some? ==> Entry(addressesByChain, c, a).Some?
    {
      var pending := addresses.Keys;
      while pending != {}
        invariant pending <= addresses.Keys
        invariant forall c: nat, a: string {:trigger Entry(addresses, c, a)} ::
                    c !in pending && Entry(addresses, c, a).Some? ==> Entry(addressesByChain, c, a).Some?
        decreases pending
      {
        var chain :| chain in pending;
        var mine := if chain in addressesByChain then addressesByChain[chain] else map[];
        if !(addresses[chain].Keys <= mine.Keys) {
          ghost var a :| a in addresses[chain] && a !in mine;
          assert Entry(addresses, chain, a).Some? && Entry(addressesByChain, chain, a).None?;
          return false;
        }
        pending := pending - {chain};
      }
      return true;
    }
  }

  lemma PutKeepsSaved<V(!new)>(ch: Chains, m: Entries<V>, c: nat, a: string, tv: TypeAndVersion<V>)
    requires Saved(ch, m) && SavedAt(ch, c, a, Some(tv))
    ensures Saved(ch, Put(m, c, a, tv))
  {
    forall c': nat, a': string ensures SavedAt(ch, c', a', Entry(Put(m, c, a, tv), c', a')) {
      EntryOfPut(m, c, a, tv, c', a');
    }
  }

  lemma UnionExtends<V(!new)>(
      now: Entries<V>, was: Entries<V>, chain: nat, entries: map<string, TypeAndVersion<V>>, pending: set<string>)
    requires IsUnion(now, was, map[chain := entries - pending])
    ensures Extends(now, was, map[chain := entries])
  {
    var all, part := map[chain := entries], map[chain := entries - pending];
    forall c: nat, a: string
      ensures Entry(now, c, a) == Entry(was, c, a) || (Entry(was, c, a).None? && Entry(now, c, a) == Entry(all, c, a))
    {
      assert Entry(part, c, a).Some? ==> Entry(part, c, a) == Entry(all, c, a);
    }
  }

  /** A saved entry is refused only for being a zero address. */
  lemma SavedNormalizes<V(!new)>(ch: Chains, c: nat, entries: map<string, TypeAndVersion<V>>, a: string)
    requires ch.Lawful() && Saved(ch, map[c := entries]) && a in entries
    ensures ch.Normalize(c, a) == if IsZero(ch, c, a) then Err(InvalidAddress) else Ok(a)
    ensures entries[a].typ != "" && SavedAt(ch, c, a, Some(entries[a]))
  {
    assert SavedAt(ch, c, a, Entry(map[c := entries], c, a));
  }

  lemma OneMoreChain<V>(before: Entries<V>, now: Entries<V>, was: Entries<V>, chain: nat,
                        entries: map<string, TypeAndVersion<V>>, pending: set<string>, x: string)
    requires x in pending && pending <= entries.Keys && now == Put(before, chain, x, entries[x])
    requires before.Keys == was.Keys + Populated(map[chain := entries - pending])
    ensures now.Keys == was.Keys + Populated(map[chain := entries - (pending - {x})])
  {
    assert x in entries - (pending - {x});
    assert Populated(map[chain := entries - (pending - {x})]) == {chain};
    assert Populated(map[chain := entries - pending]) <= {chain};
  }

  lemma PopulatedOneMore<V>(all: Entries<V>, pending: set<nat>, chain: nat)
    requires chain in pending && pending <= all.Keys
    ensures Populated(all - (pending - {chain})) == Populated(all - pending) + Populated(map[chain := all[chain]])
  {
    var now, before, one := all - (pending - {chain}), all - pending, map[chain := all[chain]];
    forall c ensures c in Populated(now) <==> c in Populated(before) || c in Populated(one) {
      assert c in now <==> c in before || c in one;
    }
  }

  lemma OneMoreSaved<V(!new)>(ch: Chains, before: Entries<V>, now: Entries<V>, was: Entries<V>, chain: nat,
                              entries: map<string, TypeAndVersion<V>>, pending: set<string>, x: string)
    requires x in pending && pending <= entries.Keys
    requires Mergeable(ch, was, map[chain := entries - pending]) && Entry(was, chain, x).None? && !IsZero(ch, chain, x)
    requires IsUnion(before, was, map[chain := entries - pending]) && now == Put(before, chain, x, entries[x])
    ensures Mergeable(ch, was, map[chain := entries - (pending - {x})])
    ensures IsUnion(now, was, map[chain := entries - (pending - {x})])
  {
    var g, g' := map[chain := entries - pending], map[chain := entries - (pending - {x})];
    forall c: nat, a: string
      ensures Entry(now, c, a) == Or(Entry(was, c, a), Entry(g', c, a))
      ensures Entry(g', c, a).Some? ==> Entry(was, c, a).None? && !IsZero(ch, c, a)
    {
      EntryOfPut(before, chain, x, entries[x], c, a);
      assert Entry(g', c, a) == if c == chain && a == x then Some(entries[x]) else Entry(g, c, a);
      assert Entry(before, c, a) == Or(Entry(was, c, a), Entry(g, c, a));
    }
  }

  lemma ChainOf<V(!new)>(ch: Chains, m: Entries<V>, chain: nat)
    requires Saved(ch, m) && chain in m
    ensures Saved(ch, map[chain := m[chain]])
  {
    forall c: nat, a: string ensures SavedAt(ch, c, a, Entry(map[chain := m[chain]], c, a)) {
      assert SavedAt(ch, c, a, Entry(m, c, a));
    }
  }

  /** What merging one more chain says about the walk so far. */
  lemma ChainMerged<V(!new)>(
      ch: Chains, was: Entries<V>, before: Entries<V>, now: Entries<V>, all: Entries<V>, pending: set<nat>, chain: nat)
    
    requires pending <= all.Keys && chain in pending
    requires Mergeable(ch, was, all - pending) && IsUnion(before, was, all - pending)
    requires Extends(now, before, map[chain := all[chain]])
    ensures Extends(now, was, all)
    ensures Mergeable(ch, before, map[chain := all[chain]]) ==> Mergeable(ch, was, all - (pending - {chain}))
    ensures IsUnion(now, before, map[chain := all[chain]]) ==> IsUnion(now, was, all - (pending - {chain}))
    ensures !Mergeable(ch, before, map[chain := all[chain]]) ==> !Mergeable(ch, was, all)
  {
    var part, done, next := map[chain := all[chain]], all - pending, all - (pending - {chain});
    forall c: nat, a: string
      ensures Entry(next, c, a) == Or(Entry(done, c, a), Entry(part, c, a))
      ensures Entry(before, c, a) == Or(Entry(was, c, a), Entry(done, c, a))
      ensures Entry(part, c, a).Some? ==> Entry(all, c, a) == Entry(part, c, a) && Entry(done, c, a).None?
      ensures Entry(done, c, a).Some? ==> Entry(all, c, a) == Entry(done, c, a)
    {
      assert Entry(before, c, a) == Or(Entry(was, c, a), Entry(done, c, a));
    }
  }

  lemma ChainRemoved<V(!new)>(
      was: Entries<V>, before: Entries<V>, now: Entries<V>, all: Entries<V>, pending: set<nat>, chain: nat)
    requires pending <= all.Keys && chain in pending
    requires IsDifference(before, was, all - pending)
    requires now == if chain in before then before[chain := before[chain] - all[chain].Keys] else before
    ensures IsDifference(now, was, all - (pending - {chain}))
  {
    var done, next := all - pending, all - (pending - {chain});
    forall c: nat, a: string ensures Entry(now, c, a) == if Entry(next, c, a).Some? then None else Entry(was, c, a) {
      assert Entry(before, c, a) == if Entry(done, c, a).Some? then None else Entry(was, c, a);
      assert Entry(next, c, a) == if c == chain then Entry(all, c, a) else Entry(done, c, a);
      assert Entry(now, c, a) == if c == chain && a in all[chain] then None else Entry(before, c, a);
    }
  }

  /**
    Removing a book that was just merged restores the original entries.  It does not remove
    the chains that came with them: those stay, without an address.
  */
  method MergeThenRemove<V(!new)>(book: AddressBookMap<V>, other: AddressBookMap<V>) returns (merged: bool)
    requires book.Valid() && other.Valid() && other.ch == book.ch && other != book
    modifies book
    ensures merged <==> Mergeable(book.ch, old(book.addressesByChain), other.addressesByChain)
    ensures merged ==> SameEntries(book.addressesByChain, old(book.addressesByChain))
    ensures merged ==> book.addressesByChain.Keys == old(book.addressesByChain.Keys) + Populated(other.addressesByChain)
  {
    ghost var was := book.addressesByChain;
    var err := book.Merge(other);
    if err.Some? { return false; }
    ghost var union := book.addressesByChain;
    assert forall c: nat, a: string {:trigger Entry(other.addressesByChain, c, a)} ::
      Entry(other.addressesByChain, c, a).Some? ==> Entry(union, c, a).Some?;
    var ok := book.Remove(other);
    forall c: nat, a: string ensures Entry(book.addressesByChain, c, a) == Entry(was, c, a) {
      assert Entry(union, c, a) == Or(Entry(was, c, a), Entry(other.addressesByChain, c, a));
    }
    return ok;
  }

  /**
    A zero address spelled so that saving takes it is stored as the printed zero address,
    and the book holding it can no longer be merged, even into an empty book.
  */
  method ZeroAddressCannotBeMerged<V(!new)>(
      ch: Chains, chain: nat, spelling: string, tv: TypeAndVersion<V>) returns (saved: bool, merged: bool)
    requires ch.Lawful() && ch.family(chain) == Some(Evm) && tv.typ != ""
    requires ch.isHexAddress(spelling) && ch.checksummed(spelling) == ch.zero && spelling != ch.zero
    ensures saved && !merged
  {
    var book := new AddressBookMap<V>(ch);
    var err := book.Save(chain, spelling, tv);
    saved := err.None?;
    var empty := new AddressBookMap<V>(ch);
    assert Entry(book.addressesByChain, chain, ch.zero).Some?;
    err := empty.Merge(book);
    merged := err.None?;
  }
}
