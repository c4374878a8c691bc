/**
 The resolution enumeration as the router defines it, the membership test the
 handlers apply to `availableResolutions`, and the duplicate-free merge
 (`[...new Set(...)]`) the update handler stores.
 */
module Resolutions {
  import opened Sequences

  /**
   `Object.values` of the resolution enumeration, in declaration order. The
   members `P480` and `P720` carry the wire values "P144" and "P480", so
   "P144" occurs twice and "P720" does not occur at all.
   */
  const EnumValues: seq<string> := ["P144", "P240", "P360", "P144", "P480", "P1080", "P1440", "P2160"]

  /** `Object.values(enumAvailableResolutions).includes(r)`. */
  predicate IsAccepted(r: string)
  {
    r in EnumValues
  }

  /** Some entry of `xs` is an accepted wire value. */
  predicate HasAccepted(xs: seq<string>)
  {
    exists i :: 0 <= i < |xs| && IsAccepted(xs[i])
  }

  /** The accepted wire values are exactly seven strings; "P720" is not one of them. */
  lemma AcceptedWireValues(r: string)
    ensures IsAccepted(r) <==> r in {"P144", "P240", "P360", "P480", "P1080", "P1440", "P2160"}
    ensures !IsAccepted("P720")
  {
  }

  /** `xs.filter(item => Object.values(enumAvailableResolutions).includes(item))`. */
  function AcceptedOnly(xs: seq<string>): (r: seq<string>)
    ensures forall i :: 0 <= i < |r| ==> IsAccepted(r[i])
    ensures |r| == 0 <==> !HasAccepted(xs)
  {
    if |xs| == 0 then []
    else if IsAccepted(xs[0]) then [xs[0]] + AcceptedOnly(xs[1..])
    else
      var rest := AcceptedOnly(xs[1..]);
      assert HasAccepted(xs[1..]) <==> HasAccepted(xs) by {
        if HasAccepted(xs) {
          var i :| 0 <= i < |xs| && IsAccepted(xs[i]);
          assert xs[1..][i - 1] == xs[i];
        }
        if HasAccepted(xs[1..]) {
          var i :| 0 <= i < |xs[1..]| && IsAccepted(xs[1..][i]);
          assert xs[i + 1] == xs[1..][i];
        }
      }
      rest
  }

  /**
   `[...new Set(xs)]`: each value once, at the position of its first occurrence.
   A value is appended only when no earlier entry holds it.
   */
  function Dedup(xs: seq<string>): (r: seq<string>)
    ensures NoDuplicates(r)
    ensures forall x :: x in r <==> x in xs
    ensures forall i, j :: 0 <= i < j < |r| ==> FirstIndex(xs, r[i]) < FirstIndex(xs, r[j])
    ensures |r| <= |xs|
  {
    if |xs| == 0 then []
    else
      var init := xs[..|xs| - 1];
      var p := Dedup(init);
      var last := xs[|xs| - 1];
      assert xs == init + [last];
      assert forall y :: y in init ==> FirstIndex(xs, y) == FirstIndex(init, y) by {
        forall y | y in init
          ensures FirstIndex(xs, y) == FirstIndex(init, y)
        {
          FirstIndexOfConcat(init, [last], y);
        }
      }
      if last in p then p
      else
        FirstIndexOfConcat(init, [last], last);
        p + [last]
  }

  /** The resolution list an update stores: existing entries first, then the incoming ones, each value once. */
  function Merge(existing: seq<string>, incoming: seq<string>): seq<string>
  {
    Dedup(existing + incoming)
  }

  /**
   The merge as the runtime performs it: walk the concatenation once, keep a
   set of the values already seen, and append each value the first time it
   appears.
   */
  method MergeResolutions(existing: seq<string>, incoming: seq<string>) returns (r: seq<string>)
    ensures r == Merge(existing, incoming)
  {
    var all := existing + incoming;
    var seen: set<string> := {};
    r := [];
    var i := 0;
    while i < |all|
      invariant 0 <= i <= |all|
      invariant r == Dedup(all[..i])
      invariant forall x :: x in seen <==> x in r
    {
      assert all[..i + 1][..i] == all[..i];
      if all[i] !in seen {
        r := r + [all[i]];
        seen := seen + {all[i]};
      }
      i := i + 1;
    }
    assert all[..|all|] == all;
  }

  /** Deduplicating a list that has no duplicates returns it unchanged. */
  lemma {:induction false} DedupOfDistinct(xs: seq<string>)
    requires NoDuplicates(xs)
    ensures Dedup(xs) == xs
    decreases |xs|
  {
    if |xs| > 0 {
      var init := xs[..|xs| - 1];
      var last := xs[|xs| - 1];
      assert xs == init + [last];
      assert NoDuplicates(init) && last !in init;
      DedupOfDistinct(init);
      DedupSnoc(init, last);
    }
  }

  /** Deduplicating one more value appends it exactly when it is new. */
  lemma DedupSnoc(init: seq<string>, last: string)
    ensures Dedup(init + [last]) == if last in init then Dedup(init) else Dedup(init) + [last]
  {
    assert (init + [last])[..|init|] == init;
  }

  /** Appending values that are all present already changes nothing. */
  lemma {:induction false} DedupAbsorbs(p: seq<string>, b: seq<string>)
    requires NoDuplicates(p)
    requires forall x :: x in b ==> x in p
    ensures Dedup(p + b) == p
    decreases |b|
  {
    if |b| == 0 {
      assert p + b == p;
      DedupOfDistinct(p);
    } else {
      var b' := b[..|b| - 1];
      assert (p + b)[..|p + b| - 1] == p + b';
      DedupAbsorbs(p, b');
    }
  }

  /** Deduplicating `a` gives a prefix of deduplicating `a + b`: the existing order survives the merge. */
  lemma {:induction false} DedupPrefix(a: seq<string>, b: seq<string>)
    ensures |Dedup(a)| <= |Dedup(a + b)|
    ensures Dedup(a + b)[..|Dedup(a)|] == Dedup(a)
    decreases |b|
  {
    if |b| == 0 {
      assert a + b == a;
    } else {
      var b' := b[..|b| - 1];
      assert (a + b)[..|a + b| - 1] == a + b';
      DedupPrefix(a, b');
    }
  }

  /**
   The merge holds every value of both lists and nothing else, once each. It
   starts with the deduplicated existing list (the existing list itself when
   that has no duplicates); the values after it are the new ones, in the order
   they first occur in the incoming list.
   */
  lemma MergeIsUnion(existing: seq<string>, incoming: seq<string>)
    ensures NoDuplicates(Merge(existing, incoming))
    ensures forall x :: x in Merge(existing, incoming) <==> x in existing || x in incoming
    ensures |Dedup(existing)| <= |Merge(existing, incoming)|
    ensures Merge(existing, incoming)[..|Dedup(existing)|] == Dedup(existing)
    ensures NoDuplicates(existing) ==> |existing| <= |Merge(existing, incoming)|
    ensures NoDuplicates(existing) ==> Merge(existing, incoming)[..|existing|] == existing
    ensures forall i :: |Dedup(existing)| <= i < |Merge(existing, incoming)| ==>
      Merge(existing, incoming)[i] !in existing && Merge(existing, incoming)[i] in incoming
    ensures forall i, j :: |Dedup(existing)| <= i < j < |Merge(existing, incoming)| ==>
      FirstIndex(incoming, Merge(existing, incoming)[i]) < FirstIndex(incoming, Merge(existing, incoming)[j])
  {
    var m := Merge(existing, incoming);
    var d := Dedup(existing);
    DedupPrefix(existing, incoming);
    if NoDuplicates(existing) {
      DedupOfDistinct(existing);
    }
    forall i | |d| <= i < |m|
      ensures m[i] !in existing && m[i] in incoming
    {
      forall k | 0 <= k < |d|
        ensures d[k] != m[i]
      {
        assert m[..|d|][k] == m[k];
      }
      assert m[i] !in d;
      assert m[i] in m;
    }
    forall i, j | |d| <= i < j < |m|
      ensures FirstIndex(incoming, m[i]) < FirstIndex(incoming, m[j])
    {
      FirstIndexOfConcat(existing, incoming, m[i]);
      FirstIndexOfConcat(existing, incoming, m[j]);
    }
  }

  /** Merging the same incoming list a second time changes nothing. */
  lemma MergeIdempotent(existing: seq<string>, incoming: seq<string>)
    ensures Merge(Merge(existing, incoming), incoming) == Merge(existing, incoming)
  {
    DedupAbsorbs(Merge(existing, incoming), incoming);
  }
}
