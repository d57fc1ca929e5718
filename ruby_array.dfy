/**
 * The two Ruby Array operations the error code is built from:
 * `compact` (drop the nil entries) and `join(sep)` (concatenate with a separator).
 * A Ruby array that may hold nil is a `seq<Option<T>>` here.
 */
module RubyArray {
  import opened Wrappers

  /** Array#compact: the non-nil entries, in their original order. */
  function Compact<T>(s: seq<Option<T>>): (r: seq<T>)
    ensures |r| <= |s|
    ensures forall k :: 0 <= k < |r| ==> Some(r[k]) in s
    ensures forall i :: 0 <= i < |s| && s[i].Some? ==> s[i].value in r
  {
    if s == [] then []
    else
      var init := Compact(s[..|s| - 1]);
      assert s == s[..|s| - 1] + [s[|s| - 1]];
      match s[|s| - 1]
      case None => init
      case Some(x) => init + [x]
  }

  /** The indices of the non-nil entries of `s`, in increasing order. */
  function Positions<T>(s: seq<Option<T>>): (p: seq<nat>)
    ensures forall k :: 0 <= k < |p| ==> p[k] < |s| && s[p[k]].Some?
    ensures forall k, l :: 0 <= k < l < |p| ==> p[k] < p[l]
    ensures forall i :: 0 <= i < |s| && s[i].Some? ==> i in p
  {
    if s == [] then []
    else
      var init := Positions(s[..|s| - 1]);
      if s[|s| - 1].Some? then init + [|s| - 1] else init
  }

  /**
   * Compact picks exactly the entries at Positions: the k-th element of the
   * compacted array is the entry at the k-th non-nil index.
   */
  lemma {:induction false} CompactAtPositions<T>(s: seq<Option<T>>)
    ensures |Compact(s)| == |Positions(s)|
    ensures forall k :: 0 <= k < |Positions(s)| ==> Compact(s)[k] == s[Positions(s)[k]].value
  {
    if s != [] {
      var init := s[..|s| - 1];
      CompactAtPositions(init);
      var n := |Positions(init)|;
      forall k | 0 <= k < n
        ensures Positions(s)[k] == Positions(init)[k] && Compact(s)[k] == Compact(init)[k]
        ensures Compact(s)[k] == s[Positions(s)[k]].value
      {
        assert init[Positions(init)[k]] == s[Positions(init)[k]];
      }
    }
  }

  /** Compacting a concatenation compacts each part and keeps their order. */
  lemma {:induction false} CompactAppend<T>(a: seq<Option<T>>, b: seq<Option<T>>)
    ensures Compact(a + b) == Compact(a) + Compact(b)
    decreases |b|
  {
    if b != [] {
      var b' := b[..|b| - 1];
      assert (a + b)[..|a + b| - 1] == a + b';
      CompactAppend(a, b');
    } else {
      assert a + b == a;
    }
  }

  /** Compact yields nothing exactly when every entry is nil. */
  lemma CompactEmpty<T>(s: seq<Option<T>>)
    ensures Compact(s) == [] <==> forall i :: 0 <= i < |s| ==> s[i].None?
  {
    if Compact(s) != [] {
      assert Some(Compact(s)[0]) in s;
    }
  }

  /** Array#join(sep) over strings: no separator before the first part. */
  function Join(parts: seq<string>, sep: string): (r: string)
    ensures parts != [] ==> parts[0] <= r
    ensures |parts| >= 2 ==> parts[0] + sep <= r
  {
    if parts == [] then ""
    else if |parts| == 1 then parts[0]
    else parts[0] + sep + Join(parts[1..], sep)
  }

  /** Joining two non-empty lists puts exactly one separator between the two joins. */
  lemma {:induction false} JoinAppend(a: seq<string>, b: seq<string>, sep: string)
    requires a != [] && b != []
    ensures Join(a + b, sep) == Join(a, sep) + sep + Join(b, sep)
  {
    var ab := a + b;
    assert |ab| >= 2 && ab[0] == a[0];
    if |a| == 1 {
      assert ab[1..] == b;
      assert Join(ab, sep) == a[0] + sep + Join(b, sep);
    } else {
      assert ab[1..] == a[1..] + b;
      JoinAppend(a[1..], b, sep);
      assert Join(ab, sep) == a[0] + sep + Join(a[1..] + b, sep);
      assert Join(a, sep) == a[0] + sep + Join(a[1..], sep);
    }
  }

  /** The length of a join: every part once, and one separator between neighbours. */
  lemma {:induction false} JoinLength(parts: seq<string>, sep: string)
    requires parts != []
    ensures |Join(parts, sep)| == TotalLength(parts) + (|parts| - 1) * |sep|
  {
    if |parts| > 1 {
      JoinLength(parts[1..], sep);
    }
  }

  function TotalLength(parts: seq<string>): nat
  {
    if parts == [] then 0 else |parts[0]| + TotalLength(parts[1..])
  }
}
