/** Case-insensitive identifiers and the name index built over wide relations.
    Source text is a sequence of bytes; a byte is modelled by the `char` of the same code. */
module Identifier {
  import opened Wrappers

  function Lower(c: char): char {
    if 'A' <= c <= 'Z' then (c as int + 32) as char else c
  }

  /** The canonical spelling of an identifier: two identifiers are the same name exactly
      when their folds are equal, which makes the relation an equivalence by construction. */
  function Fold(s: string): (r: string)
    ensures |r| == |s|
    ensures forall i :: 0 <= i < |s| ==> r[i] == Lower(s[i])
  {
    seq(|s|, i requires 0 <= i < |s| => Lower(s[i]))
  }

  predicate IEquals(a: string, b: string) {
    Fold(a) == Fold(b)
  }

  method CompareIdentifiers(a: string, b: string) returns (same: bool)
    ensures same == IEquals(a, b)
  {
    if |a| != |b| {
      return false;
    }
    for i := 0 to |a|
      invariant forall k :: 0 <= k < i ==> Lower(a[k]) == Lower(b[k])
    {
      if Lower(a[i]) != Lower(b[i]) {
        assert Fold(a)[i] != Fold(b)[i];
        return false;
      }
    }
    assert Fold(a) == Fold(b);
    return true;
  }

  // ----- FNV-1a over the folded bytes -----

  const FNV_OFFSET: nat := 14695981039346656037
  const FNV_PRIME: nat := 1099511628211
  const TWO_TO_THE_64: nat := 0x1_0000_0000_0000_0000

  /** One FNV-1a step in 64-bit wrap-around arithmetic; the exclusive-or with a byte
      touches only the low eight bits. */
  function Mix(h: nat, c: char): nat {
    (h - h % 256 + XorByte(h % 256, c as int % 256)) * FNV_PRIME % TWO_TO_THE_64
  }

  function XorByte(a: nat, b: nat): nat
    requires a < 256 && b < 256
  {
    ((a as bv8) ^ (b as bv8)) as nat
  }

  function Fnv(s: string): nat {
    if s == [] then FNV_OFFSET else Mix(Fnv(s[..|s| - 1]), s[|s| - 1])
  }

  /** The hash sees an identifier only through its fold, so equal identifiers land in the
      same bucket whatever their spelling. */
  method HashIdentifier(s: string) returns (h: nat)
    ensures h == Fnv(Fold(s))
  {
    h := FNV_OFFSET;
    for i := 0 to |s|
      invariant h == Fnv(Fold(s)[..i])
    {
      h := Mix(h, Lower(s[i]));
      assert Fold(s)[..i + 1][..i] == Fold(s)[..i];
    }
    assert Fold(s)[..|s|] == Fold(s);
  }

  // ----- Lookup by linear scan: the reference -----

  /** The first position in `names` carrying the name `q`. */
  function FirstMatch(names: seq<string>, q: string): (r: Option<nat>)
    ensures r.Some? ==> r.value < |names| && IEquals(names[r.value], q)
    ensures r.Some? ==> forall k :: 0 <= k < r.value ==> !IEquals(names[k], q)
    ensures r.None? ==> forall k :: 0 <= k < |names| ==> !IEquals(names[k], q)
  {
    if names == [] then None
    else
      var before := FirstMatch(names[..|names| - 1], q);
      if before.Some? then before
      else if IEquals(names[|names| - 1], q) then Some(|names| - 1)
      else None
  }

  lemma FirstMatchUnique(names: seq<string>, q: string, i: nat)
    requires i < |names| && IEquals(names[i], q)
    requires forall k :: 0 <= k < i ==> !IEquals(names[k], q)
    ensures FirstMatch(names, q) == Some(i)
  {
  }

  // ----- The hash index -----

  datatype Entry = Entry(key: string, index: nat)

  /** The chains of the hash table, by hash value. */
  type Buckets = map<nat, seq<Entry>>

  function Chain(b: Buckets, h: nat): seq<Entry> {
    if h in b then b[h] else []
  }

  function FindInChain(chain: seq<Entry>, q: string): (r: Option<nat>)
    ensures r.Some? ==> exists i :: 0 <= i < |chain| && IEquals(chain[i].key, q) && r.value == chain[i].index
  {
    if chain == [] then None
    else if IEquals(chain[0].key, q) then Some(chain[0].index)
    else FindInChain(chain[1..], q)
  }

  lemma {:induction false} FindAppended(chain: seq<Entry>, e: Entry, q: string)
    ensures FindInChain(chain + [e], q) ==
            if FindInChain(chain, q).Some? then FindInChain(chain, q)
            else if IEquals(e.key, q) then Some(e.index) else None
  {
    if chain == [] {
      assert chain + [e] == [e];
      assert [e][1..] == [];
    } else {
      assert (chain + [e])[1..] == chain[1..] + [e];
      FindAppended(chain[1..], e, q);
    }
  }

  /** What a probe of the table answers: hash, then compare along the chain. */
  function Probe(b: Buckets, q: string): Option<nat> {
    FindInChain(Chain(b, Fnv(Fold(q))), q)
  }

  /** Probing the table answers as a scan of `names` does. */
  ghost predicate Indexes(b: Buckets, names: seq<string>) {
    forall q :: Probe(b, q) == FirstMatch(names, q)
  }

  /** The relation's columns beside their lazily built name index. Narrow relations are
      scanned; a relation with more than sixteen columns builds the index on first use. */
  class NameIndex {
    const names: seq<string>
    var buckets: Buckets

    static const INDEX_THRESHOLD := 16

    /** Either not built yet, or answering every probe as the linear scan would. */
    ghost predicate Valid()
      reads this
    {
      buckets != map[] ==> Indexes(buckets, names)
    }

    constructor (names: seq<string>)
      ensures Valid() && this.names == names
    {
      this.names := names;
      this.buckets := map[];
    }

    /** Insert `names[i]`; an entry already present under an equal name wins. */
    method Emplace(i: nat)
      requires i < |names|
      requires Indexes(buckets, names[..i])
      modifies this
      ensures buckets != map[]
      ensures Indexes(buckets, names[..i + 1])
    {
      var key := names[i];
      var h := HashIdentifier(key);
      var chain := Chain(buckets, h);
      ghost var before := buckets;
      assert names[..i + 1][..i] == names[..i];
      if FindInChain(chain, key).None? {
        buckets := buckets[h := chain + [Entry(key, i)]];
        assert h in buckets;
        forall q ensures Probe(buckets, q) == FirstMatch(names[..i + 1], q) {
          assert Probe(before, q) == FirstMatch(names[..i], q);
          FindAppended(chain, Entry(key, i), q);
        }
      } else {
        assert h in buckets;
        assert Probe(before, key) == FirstMatch(names[..i], key);
        forall q ensures Probe(buckets, q) == FirstMatch(names[..i + 1], q) {
          assert Probe(before, q) == FirstMatch(names[..i], q);
        }
      }
    }

    method FindColumn(q: string) returns (r: Option<nat>)
      requires Valid()
      modifies this
      ensures Valid()
      ensures r == FirstMatch(names, q)
    {
      if |names| > INDEX_THRESHOLD {
        if buckets == map[] {
          var i := 0;
          while i < |names|
            invariant 0 <= i <= |names|
            invariant i > 0 ==> buckets != map[]
            invariant Indexes(buckets, names[..i])
          {
            Emplace(i);
            i := i + 1;
          }
          assert names[..i] == names;
        }
        var h := HashIdentifier(q);
        r := FindInChain(Chain(buckets, h), q);
        assert r == Probe(buckets, q);
      } else {
        var i := 0;
        while i < |names|
          invariant 0 <= i <= |names| && Valid()
          invariant forall k :: 0 <= k < i ==> !IEquals(names[k], q)
        {
          var same := CompareIdentifiers(names[i], q);
          if same {
            return Some(i);
          }
          i := i + 1;
        }
        r := None;
      }
    }
  }
}
