/**
 * Bundle references and the insertion-ordered set that holds them. Two
 * references are equal when their bundle paths are equal, so the set keeps
 * the first reference seen for each bundle path, in discovery order.
 */
module Bundles {
  import opened Results
  import opened Paths

  /** One discovered bundle: display name, identity path, and the table file it came from, if any. */
  datatype Localizable = Localizable(framework: string, bundlePath: Path, loctablePath: Option<Path>)

  /** Some entry of `s` has bundle path `p`, i.e. `s` contains a reference equal to one for `p`. */
  predicate HasBundle(s: seq<Localizable>, p: Path) {
    |s| > 0 && (HasBundle(s[..|s| - 1], p) || s[|s| - 1].bundlePath == p)
  }

  /** `HasBundle` holds exactly when some position of `s` carries bundle path `p`. */
  lemma {:induction false} HasBundleAt(s: seq<Localizable>, p: Path)
    ensures HasBundle(s, p) <==> exists i :: 0 <= i < |s| && s[i].bundlePath == p
  {
    if |s| > 0 {
      var s' := s[..|s| - 1];
      HasBundleAt(s', p);
      if exists i :: 0 <= i < |s| && s[i].bundlePath == p {
        var i :| 0 <= i < |s| && s[i].bundlePath == p;
        if i < |s'| {
          assert s'[i] == s[i];
        }
      }
      if HasBundle(s', p) {
        var i :| 0 <= i < |s'| && s'[i].bundlePath == p;
        assert s[i] == s'[i];
      }
    }
  }

  /** No two entries share a bundle path. */
  predicate Distinct(s: seq<Localizable>) {
    forall i, j :: 0 <= i < j < |s| ==> s[i].bundlePath != s[j].bundlePath
  }

  /** The ordered set's `append`: a reference equal to one already present is ignored. */
  function Append(s: seq<Localizable>, x: Localizable): seq<Localizable> {
    if HasBundle(s, x.bundlePath) then s else s + [x]
  }

  /** Appending every element of `s`, in order, to an empty ordered set. */
  function Dedup(s: seq<Localizable>): seq<Localizable> {
    if |s| == 0 then [] else Append(Dedup(s[..|s| - 1]), s[|s| - 1])
  }

  /** Appending every element of `xs`, in order, to the ordered set `acc`. */
  function AppendAll(acc: seq<Localizable>, xs: seq<Localizable>): seq<Localizable>
    decreases |xs|
  {
    if |xs| == 0 then acc else AppendAll(Append(acc, xs[0]), xs[1..])
  }

  /** Position of the first entry of `s` with bundle path `p`. */
  function FirstIndex(s: seq<Localizable>, p: Path): (i: nat)
    requires HasBundle(s, p)
    ensures i < |s| && s[i].bundlePath == p
    ensures forall k :: 0 <= k < i ==> s[k].bundlePath != p
  {
    if HasBundle(s[..|s| - 1], p) then FirstIndex(s[..|s| - 1], p)
    else HasBundleAt(s[..|s| - 1], p); |s| - 1
  }

  /** The ordered set never holds two references to the same bundle path. */
  lemma {:induction false} DedupDistinct(s: seq<Localizable>)
    ensures Distinct(Dedup(s))
  {
    if |s| > 0 {
      var d', x := Dedup(s[..|s| - 1]), s[|s| - 1];
      DedupDistinct(s[..|s| - 1]);
      HasBundleAt(d', x.bundlePath);
    }
  }

  /** Every bundle path of the input is in the ordered set, and nothing else. */
  lemma {:induction false} DedupCovers(s: seq<Localizable>)
    ensures forall p :: HasBundle(Dedup(s), p) <==> HasBundle(s, p)
  {
    if |s| > 0 {
      var s', x := s[..|s| - 1], s[|s| - 1];
      DedupCovers(s');
      var d' := Dedup(s');
      if !HasBundle(d', x.bundlePath) {
        assert (d' + [x])[..|d'|] == d';
      }
    }
  }

  /**
   * Each entry of the ordered set is the first reference of the input with its
   * bundle path, and entries appear in the order of those first occurrences.
   */
  lemma {:induction false} DedupFirstDiscovery(s: seq<Localizable>)
    ensures forall i :: 0 <= i < |Dedup(s)| ==>
      HasBundle(s, Dedup(s)[i].bundlePath) && Dedup(s)[i] == s[FirstIndex(s, Dedup(s)[i].bundlePath)]
    ensures forall i, j :: 0 <= i < j < |Dedup(s)| ==>
      HasBundle(s, Dedup(s)[i].bundlePath) && HasBundle(s, Dedup(s)[j].bundlePath) &&
      FirstIndex(s, Dedup(s)[i].bundlePath) < FirstIndex(s, Dedup(s)[j].bundlePath)
  {
    if |s| > 0 {
      var s', x := s[..|s| - 1], s[|s| - 1];
      DedupFirstDiscovery(s');
      DedupCovers(s');
      var d', d := Dedup(s'), Dedup(s);
      if !HasBundle(d', x.bundlePath) {
        assert FirstIndex(s, x.bundlePath) == |s| - 1;
        assert d == d' + [x];
      }
    }
  }

  /** An input that already has distinct bundle paths passes through unchanged. */
  lemma {:induction false} DedupOfDistinct(s: seq<Localizable>)
    requires Distinct(s)
    ensures Dedup(s) == s
  {
    if |s| > 0 {
      var s', x := s[..|s| - 1], s[|s| - 1];
      assert Distinct(s') by {
        forall i, j | 0 <= i < j < |s'| ensures s'[i].bundlePath != s'[j].bundlePath {
          assert s'[i] == s[i] && s'[j] == s[j];
        }
      }
      DedupOfDistinct(s');
      DedupCovers(s');
      assert !HasBundle(s', x.bundlePath) by {
        HasBundleAt(s', x.bundlePath);
        forall i | 0 <= i < |s'| ensures s'[i].bundlePath != x.bundlePath {
          assert s'[i] == s[i];
        }
      }
      assert Dedup(s) == s' + [x];
      assert s' + [x] == s;
    }
  }

  /** Moving the first element of `xs` onto the end of `p` leaves the concatenation unchanged. */
  lemma ShiftFirst<T>(p: seq<T>, xs: seq<T>)
    requires |xs| > 0
    ensures (p + [xs[0]]) + xs[1..] == p + xs
  {
    assert xs == [xs[0]] + xs[1..];
  }

  /** Appending `xs` to the ordered set built from `p` gives the ordered set built from `p + xs`. */
  lemma {:induction false} AppendAllIsDedup(p: seq<Localizable>, xs: seq<Localizable>)
    ensures AppendAll(Dedup(p), xs) == Dedup(p + xs)
    decreases |xs|
  {
    if |xs| == 0 {
      assert p + xs == p;
    } else {
      var p' := p + [xs[0]];
      assert Dedup(p') == Append(Dedup(p), xs[0]) by {
        assert p'[..|p'| - 1] == p;
      }
      assert AppendAll(Dedup(p), xs) == AppendAll(Dedup(p'), xs[1..]);
      AppendAllIsDedup(p', xs[1..]);
      ShiftFirst(p, xs);
    }
  }
}
