/**
 * The blob container the gateway talks to, as an abstract store: a sequence
 * of blobs in listing order. The container lists names in ascending
 * lexicographic order, so the sequence is kept sorted by name and is
 * determined by which blob each name holds (`Get`).
 */
module Store {
  import opened Wrappers
  import opened Text

  newtype byte = x: int | 0 <= x < 256

  /** A stored object: key, content, content type and the `tags` metadata entry. */
  datatype Blob = Blob(name: string, content: seq<byte>, contentType: string, tags: Option<string>)

  /** Strict lexicographic order on names, character by character. */
  predicate Below(a: string, b: string)
    decreases |a|
  {
    if a == [] then b != []
    else if b == [] then false
    else a[0] < b[0] || (a[0] == b[0] && Below(a[1..], b[1..]))
  }

  lemma {:induction false} BelowIrreflexive(a: string)
    ensures !Below(a, a)
    decreases |a|
  {
    if a != [] { BelowIrreflexive(a[1..]); }
  }

  lemma {:induction false} BelowTransitive(a: string, b: string, c: string)
    requires Below(a, b) && Below(b, c)
    ensures Below(a, c)
    decreases |a|
  {
    if a != [] && a[0] == b[0] && b[0] == c[0] {
      BelowTransitive(a[1..], b[1..], c[1..]);
    }
  }

  lemma {:induction false} BelowTotal(a: string, b: string)
    ensures a == b || Below(a, b) || Below(b, a)
    decreases |a|
  {
    if a != [] && b != [] && a[0] == b[0] {
      BelowTotal(a[1..], b[1..]);
      if a[1..] == b[1..] { assert a == [a[0]] + a[1..] && b == [b[0]] + b[1..]; }
    }
  }

  /** Listing order: names strictly ascending, hence distinct. */
  predicate Sorted(bs: seq<Blob>)
  {
    forall i, j :: 0 <= i < j < |bs| ==> Below(bs[i].name, bs[j].name)
  }

  lemma SortedDistinct(bs: seq<Blob>, i: nat, j: nat)
    requires Sorted(bs) && i < |bs| && j < |bs| && i != j
    ensures bs[i].name != bs[j].name
  {
    if i < j { BelowIrreflexive(bs[i].name); } else { BelowIrreflexive(bs[j].name); }
  }

  lemma SortedCons(b: Blob, bs: seq<Blob>)
    requires Sorted(bs)
    requires forall x :: x in bs ==> Below(b.name, x.name)
    ensures Sorted([b] + bs)
  {
    var s := [b] + bs;
    forall i, j | 0 <= i < j < |s| ensures Below(s[i].name, s[j].name) {
      if i == 0 { assert s[j] in bs; } else { assert s[i] == bs[i - 1] && s[j] == bs[j - 1]; }
    }
  }

  /** The blob stored under `key`, if any. */
  function Get(bs: seq<Blob>, key: string): (r: Option<Blob>)
    ensures r.Some? ==> r.value in bs && r.value.name == key
    ensures r.None? ==> forall i :: 0 <= i < |bs| ==> bs[i].name != key
    decreases |bs|
  {
    if bs == [] then None
    else if bs[0].name == key then Some(bs[0])
    else Get(bs[1..], key)
  }

  /** In a sorted store the blob at position i is the one its name looks up. */
  lemma GetAt(bs: seq<Blob>, i: nat)
    requires Sorted(bs) && i < |bs|
    ensures Get(bs, bs[i].name) == Some(bs[i])
  {
    var r := Get(bs, bs[i].name);
    var j :| 0 <= j < |bs| && bs[j] == r.value;
    if j != i { SortedDistinct(bs, i, j); }
  }

  /** Upload or copy: `b` is written under its name, replacing any blob already there. */
  function Put(bs: seq<Blob>, b: Blob): (r: seq<Blob>)
    ensures forall x :: x in r ==> x == b || x in bs
    decreases |bs|
  {
    if bs == [] then [b]
    else if bs[0].name == b.name then [b] + bs[1..]
    else if Below(b.name, bs[0].name) then [b] + bs
    else [bs[0]] + Put(bs[1..], b)
  }

  /** Delete: the blob stored under `key`, if any, is removed. */
  function Remove(bs: seq<Blob>, key: string): (r: seq<Blob>)
    ensures forall x :: x in r ==> x in bs && x.name != key
    decreases |bs|
  {
    if bs == [] then []
    else if bs[0].name == key then Remove(bs[1..], key)
    else [bs[0]] + Remove(bs[1..], key)
  }

  /** After a Put, `b.name` holds `b` and every other name holds what it held. */
  lemma {:induction false} GetPut(bs: seq<Blob>, b: Blob, key: string)
    ensures Get(Put(bs, b), key) == if key == b.name then Some(b) else Get(bs, key)
    decreases |bs|
  {
    if bs != [] && bs[0].name != b.name && !Below(b.name, bs[0].name) {
      GetPut(bs[1..], b, key);
    }
  }

  lemma {:induction false} PutSorted(bs: seq<Blob>, b: Blob)
    requires Sorted(bs)
    ensures Sorted(Put(bs, b))
    decreases |bs|
  {
    if bs == [] {
    } else if bs[0].name == b.name {
      forall x | x in bs[1..] ensures Below(b.name, x.name) {
        var j :| 1 <= j < |bs| && bs[j] == x;
      }
      SortedCons(b, bs[1..]);
    } else if Below(b.name, bs[0].name) {
      forall x | x in bs ensures Below(b.name, x.name) {
        var j :| 0 <= j < |bs| && bs[j] == x;
        if j > 0 { BelowTransitive(b.name, bs[0].name, x.name); }
      }
      SortedCons(b, bs);
    } else {
      BelowTotal(b.name, bs[0].name);
      PutSorted(bs[1..], b);
      forall x | x in Put(bs[1..], b) ensures Below(bs[0].name, x.name) {
        if x != b { var j :| 1 <= j < |bs| && bs[j] == x; }
      }
      SortedCons(bs[0], Put(bs[1..], b));
    }
  }

  /** After a Remove, `key` holds nothing and every other name holds what it held. */
  lemma {:induction false} GetRemove(bs: seq<Blob>, key: string, other: string)
    ensures Get(Remove(bs, key), other) == if other == key then None else Get(bs, other)
    decreases |bs|
  {
    if bs != [] { GetRemove(bs[1..], key, other); }
  }

  lemma {:induction false} RemoveSorted(bs: seq<Blob>, key: string)
    requires Sorted(bs)
    ensures Sorted(Remove(bs, key))
    decreases |bs|
  {
    if bs != [] {
      RemoveSorted(bs[1..], key);
      if bs[0].name != key {
        forall x | x in Remove(bs[1..], key) ensures Below(bs[0].name, x.name) {
          var j :| 1 <= j < |bs| && bs[j] == x;
        }
        SortedCons(bs[0], Remove(bs[1..], key));
      }
    }
  }

  /** In a sorted store, removing the name at position i drops exactly that entry. */
  lemma RemoveAt(bs: seq<Blob>, i: nat)
    requires Sorted(bs) && i < |bs|
    ensures Remove(bs, bs[i].name) == bs[..i] + bs[i + 1..]
  {
    forall j | 0 <= j < |bs| && j != i ensures bs[j].name != bs[i].name {
      SortedDistinct(bs, i, j);
    }
    RemoveUnique(bs, i);
  }

  /** Removing a name that only position i holds drops exactly that entry. */
  lemma {:induction false} RemoveUnique(bs: seq<Blob>, i: nat)
    requires i < |bs|
    requires forall j :: 0 <= j < |bs| && j != i ==> bs[j].name != bs[i].name
    ensures Remove(bs, bs[i].name) == bs[..i] + bs[i + 1..]
    decreases |bs|
  {
    var key := bs[i].name;
    var tail := bs[1..];
    if i == 0 {
      assert forall j :: 0 <= j < |tail| ==> tail[j].name != key by {
        forall j | 0 <= j < |tail| ensures tail[j].name != key { assert tail[j] == bs[j + 1]; }
      }
      RemoveNothing(tail, key);
    } else {
      assert tail[i - 1] == bs[i];
      forall j | 0 <= j < |tail| && j != i - 1 ensures tail[j].name != tail[i - 1].name {
        assert tail[j] == bs[j + 1];
      }
      RemoveUnique(tail, i - 1);
      RemoveKeepsHead(bs, key, i);
    }
  }

  /** When the head is kept, removal from the tail that drops position i - 1 drops position i of the whole. */
  lemma RemoveKeepsHead(bs: seq<Blob>, key: string, i: nat)
    requires 0 < i < |bs| && bs[0].name != key
    requires Remove(bs[1..], key) == bs[1..][..i - 1] + bs[1..][i..]
    ensures Remove(bs, key) == bs[..i] + bs[i + 1..]
  {
    assert Remove(bs, key) == [bs[0]] + Remove(bs[1..], key);
    assert bs[1..][..i - 1] == bs[1..i] && bs[1..][i..] == bs[i + 1..];
    assert [bs[0]] + bs[1..i] == bs[..i];
  }

  /** Deleting the entry at position i of a sorted store empties its name and keeps every other name. */
  lemma GetWithout(bs: seq<Blob>, i: nat, other: string)
    requires Sorted(bs) && i < |bs|
    ensures Get(bs[..i] + bs[i + 1..], other) == if other == bs[i].name then None else Get(bs, other)
  {
    RemoveAt(bs, i);
    GetRemove(bs, bs[i].name, other);
  }

  lemma {:induction false} RemoveNothing(bs: seq<Blob>, key: string)
    requires forall j :: 0 <= j < |bs| ==> bs[j].name != key
    ensures Remove(bs, key) == bs
    decreases |bs|
  {
    if bs != [] { RemoveNothing(bs[1..], key); }
  }

  /**
   * Two sorted stores that hold the same blob under every name are the same
   * sequence: the listing order carries no information beyond the contents.
   */
  lemma {:induction false} SortedExtensional(bs: seq<Blob>, cs: seq<Blob>)
    requires Sorted(bs) && Sorted(cs)
    requires forall key :: Get(bs, key) == Get(cs, key)
    ensures bs == cs
    decreases |bs| + |cs|
  {
    if bs == [] || cs == [] {
      var key := if bs == [] then (if cs == [] then "" else cs[0].name) else bs[0].name;
      assert Get(bs, key) == Get(cs, key);
    } else {
      var b, c := bs[0], cs[0];
      GetAt(bs, 0);
      GetAt(cs, 0);
      var jb := IndexOfBlob(cs, b);
      var jc := IndexOfBlob(bs, c);
      if jb != 0 && jc != 0 {
        BelowTransitive(b.name, c.name, b.name);
        BelowIrreflexive(b.name);
      }
      assert b == c;
      forall key ensures Get(bs[1..], key) == Get(cs[1..], key) {
        if key != b.name { assert Get(bs, key) == Get(bs[1..], key); }
        else {
          GetAbsentAfterHead(bs, key);
          GetAbsentAfterHead(cs, key);
        }
      }
      SortedExtensional(bs[1..], cs[1..]);
    }
  }

  /** Position of a blob that `Get` found in a store. */
  lemma IndexOfBlob(bs: seq<Blob>, b: Blob) returns (j: nat)
    requires Sorted(bs) && Get(bs, b.name) == Some(b)
    ensures j < |bs| && bs[j] == b
  {
    j :| 0 <= j < |bs| && bs[j] == b;
  }

  lemma GetAbsentAfterHead(bs: seq<Blob>, key: string)
    requires Sorted(bs) && bs != [] && bs[0].name == key
    ensures Get(bs[1..], key) == None
  {
    forall j | 1 <= j < |bs| ensures bs[j].name != key { SortedDistinct(bs, 0, j); }
  }

  /** The store after writing `xs` one after another. */
  function PutAll(bs: seq<Blob>, xs: seq<Blob>): seq<Blob>
    decreases |xs|
  {
    if xs == [] then bs else Put(PutAll(bs, xs[..|xs| - 1]), xs[|xs| - 1])
  }

  lemma {:induction false} PutAllSorted(bs: seq<Blob>, xs: seq<Blob>)
    requires Sorted(bs)
    ensures Sorted(PutAll(bs, xs))
    decreases |xs|
  {
    if xs != [] {
      PutAllSorted(bs, xs[..|xs| - 1]);
      PutSorted(PutAll(bs, xs[..|xs| - 1]), xs[|xs| - 1]);
    }
  }

  /** After writing `xs`, a name holds the last blob of `xs` with that name, if any. */
  lemma {:induction false} GetPutAll(bs: seq<Blob>, xs: seq<Blob>, key: string)
    ensures Get(PutAll(bs, xs), key) == match LastWithName(xs, key)
      case None => Get(bs, key)
      case Some(j) => Some(xs[j])
    decreases |xs|
  {
    if xs != [] {
      var init, x := xs[..|xs| - 1], xs[|xs| - 1];
      GetPutAll(bs, init, key);
      GetPut(PutAll(bs, init), x, key);
    }
  }

  /** The position of the last blob in `xs` named `key`. */
  function LastWithName(xs: seq<Blob>, key: string): (r: Option<nat>)
    ensures r.Some? ==> r.value < |xs| && xs[r.value].name == key
    ensures r.Some? ==> forall j :: r.value < j < |xs| ==> xs[j].name != key
    ensures r.None? ==> forall j :: 0 <= j < |xs| ==> xs[j].name != key
    decreases |xs|
  {
    if xs == [] then None
    else if xs[|xs| - 1].name == key then Some(|xs| - 1)
    else LastWithName(xs[..|xs| - 1], key)
  }

  /** LastWithName is determined by its contract. */
  lemma LastWithNameIs(xs: seq<Blob>, key: string, j: nat)
    requires j < |xs| && xs[j].name == key
    requires forall k :: j < k < |xs| ==> xs[k].name != key
    ensures LastWithName(xs, key) == Some(j)
  {
    var r := LastWithName(xs, key);
    assert !(r.value < j);
  }

  /** The two lookups the handlers perform over the listing. */
  datatype Pattern = Suffix(suffix: string) | Prefix(prefix: string)

  predicate Matches(p: Pattern, name: string)
  {
    match p
    case Suffix(s) => EndsWith(name, s)
    case Prefix(s) => StartsWith(name, s)
  }

  /** The position of the first blob in listing order whose name matches `p`. */
  function FirstMatch(bs: seq<Blob>, p: Pattern): (r: Option<nat>)
    ensures r.Some? ==> r.value < |bs| && Matches(p, bs[r.value].name)
    ensures r.Some? ==> forall j :: 0 <= j < r.value ==> !Matches(p, bs[j].name)
    ensures r.None? ==> forall j :: 0 <= j < |bs| ==> !Matches(p, bs[j].name)
    decreases |bs|
  {
    if bs == [] then None
    else if Matches(p, bs[0].name) then Some(0)
    else match FirstMatch(bs[1..], p)
      case None => None
      case Some(i) => Some(i + 1)
  }
}
