/** The 256-entry substitution table built from the recovered key
    (`build_key_box`). The table starts as the identity and is changed only
    by swaps, so it is always a permutation of 0..255. */
module KeyBox {
  import opened Common

  /** The identity table: entry i holds i. */
  function Identity(): (t: seq<byte>)
    ensures |t| == 256
  {
    seq(256, i requires 0 <= i < 256 => i as byte)
  }

  /** `slice::swap`: exchange entries i and j (nothing happens when i == j). */
  function Swap(s: seq<byte>, i: nat, j: nat): (r: seq<byte>)
    requires i < |s| && j < |s|
  {
    s[i := s[j]][j := s[i]]
  }

  /** The table and the `last_byte` accumulator after some steps of the schedule. */
  datatype Schedule = Schedule(table: seq<byte>, last: nat)

  /** The schedule after its first `steps` iterations: iteration i computes
      c = (table[i] + last + key[i mod |key|]) & 0xff, swaps entries i and c
      and sets last to c. The u64 sum never exceeds 3 * 255, so `& 0xff`
      is `% 256` here. */
  function ScheduleAfter(key: seq<byte>, steps: nat): (s: Schedule)
    requires |key| > 0 && steps <= 256
    ensures |s.table| == 256 && s.last < 256
  {
    if steps == 0 then Schedule(Identity(), 0)
    else
      var prev := ScheduleAfter(key, steps - 1);
      var i := steps - 1;
      var c := (prev.table[i] as int + prev.last + key[i % |key|] as int) % 256;
      Schedule(Swap(prev.table, i, c), c)
  }

  /** The finished key box. */
  function KeyBoxOf(key: seq<byte>): (r: seq<byte>)
    requires |key| > 0
  {
    ScheduleAfter(key, 256).table
  }

  /** No value occurs at two positions. */
  ghost predicate Distinct(t: seq<byte>) {
    forall i, j :: 0 <= i < j < |t| ==> t[i] != t[j]
  }

  /** Each value 0..255 occurs exactly once: the 256 entries are pairwise
      distinct and every byte value is among them. */
  ghost predicate IsBytePermutation(t: seq<byte>) {
    |t| == 256 && Distinct(t) && forall v: byte :: v in t
  }

  /** A swap keeps the multiset of entries. */
  lemma SwapPreservesMultiset(s: seq<byte>, i: nat, j: nat)
    requires i < |s| && j < |s|
    ensures multiset(Swap(s, i, j)) == multiset(s)
  {
    var t := s[i := s[j]];
    assert multiset(t) == multiset(s) - multiset{s[i]} + multiset{s[j]};
    assert t[j] == s[j];
    assert multiset(t[j := s[i]]) == multiset(t) - multiset{t[j]} + multiset{s[i]};
  }

  /** At every step of the schedule the table holds the identity's entries. */
  lemma {:induction false} ScheduleKeepsEntries(key: seq<byte>, steps: nat)
    requires |key| > 0 && steps <= 256
    ensures multiset(ScheduleAfter(key, steps).table) == multiset(Identity())
  {
    if steps > 0 {
      ScheduleKeepsEntries(key, steps - 1);
      var prev := ScheduleAfter(key, steps - 1);
      var i := steps - 1;
      var c := (prev.table[i] as int + prev.last + key[i % |key|] as int) % 256;
      SwapPreservesMultiset(prev.table, i, c);
    }
  }

  /** A swap keeps the entries pairwise distinct. */
  lemma SwapKeepsDistinct(s: seq<byte>, i: nat, j: nat)
    requires i < |s| && j < |s| && Distinct(s)
    ensures Distinct(Swap(s, i, j))
  {
    var t := Swap(s, i, j);
    forall p, q | 0 <= p < q < |t|
      ensures t[p] != t[q]
    {
      var p' := if p == i then j else if p == j then i else p;
      var q' := if q == i then j else if q == j then i else q;
      assert t[p] == s[p'] && t[q] == s[q'] && p' != q';
    }
  }

  /** At every step of the schedule no value occurs twice. */
  lemma {:induction false} ScheduleKeepsDistinct(key: seq<byte>, steps: nat)
    requires |key| > 0 && steps <= 256
    ensures Distinct(ScheduleAfter(key, steps).table)
  {
    if steps == 0 {
      var id := Identity();
      assert forall i :: 0 <= i < 256 ==> id[i] as int == i;
    } else {
      ScheduleKeepsDistinct(key, steps - 1);
      var prev := ScheduleAfter(key, steps - 1);
      var i := steps - 1;
      var c := (prev.table[i] as int + prev.last + key[i % |key|] as int) % 256;
      SwapKeepsDistinct(prev.table, i, c);
    }
  }

  /** The key box is a permutation of 0..255, for every non-empty key. */
  lemma KeyBoxIsPermutation(key: seq<byte>)
    requires |key| > 0
    ensures IsBytePermutation(KeyBoxOf(key))
  {
    var t := KeyBoxOf(key);
    ScheduleKeepsEntries(key, 256);
    ScheduleKeepsDistinct(key, 256);
    forall v: byte
      ensures v in t
    {
      assert Identity()[v as int] == v;
      assert v in Identity();
      assert v in multiset(Identity());
      assert v in multiset(t);
    }
  }

  /** `build_key_box`: fill a 256-byte table with the identity, then run the
      256 swap steps in place, keeping the accumulator in a local. */
  method BuildKeyBox(key: seq<byte>) returns (kbox: seq<byte>)
    requires |key| > 0
    ensures kbox == KeyBoxOf(key)
    ensures IsBytePermutation(kbox)
  {
    var table := new byte[256];
    for i := 0 to 256
      invariant forall k :: 0 <= k < i ==> table[k] == k as byte
    {
      table[i] := i as byte;
    }
    assert table[..] == Identity();
    var last := 0;
    for i := 0 to 256
      invariant table[..] == ScheduleAfter(key, i).table
      invariant last == ScheduleAfter(key, i).last
    {
      var c := (table[i] as int + last + key[i % |key|] as int) % 256;
      var t := table[i];
      table[i] := table[c];
      table[c] := t;
      last := c;
    }
    kbox := table[..];
    KeyBoxIsPermutation(key);
  }
}
