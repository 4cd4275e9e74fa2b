/** Shared vocabulary of the site model: optional values, the outcome of a Go
    function that returns `error`, and the string and sequence helpers the
    router, the aggregator and the build tool are written with. */
module Common {

  /** A value that may be absent: Go's `nil` interface, a missing capability,
      a failed lookup. */
  datatype Option<+T> = None | Some(value: T) {
    /** The value, or `default` when absent. */
    function GetOr(default: T): T {
      match this
      case Some(v) => v
      case None => default
    }
  }

  /** What a Go function returning `error` ends with: `nil`, an error value,
      or a runtime panic (an out-of-range slice, say). */
  datatype Status = Ok | Error(msg: string) | Panic(msg: string)

  /** The status of a collaborator call whose error is an input of the model. */
  function StatusOf(err: Option<string>): (r: Status)
    ensures r.Ok? <==> err.None?
    ensures err.Some? ==> r == Error(err.value)
  {
    match err
    case None => Ok
    case Some(m) => Error(m)
  }

  // ---------------------------------------------------------------- strings

  /** `p` is a prefix of `s`. */
  predicate IsPrefix(p: string, s: string) {
    |p| <= |s| && s[..|p|] == p
  }

  /** `sub` occurs in `s` starting at index `i`. */
  predicate OccursAt(s: string, sub: string, i: int) {
    0 <= i && i + |sub| <= |s| && s[i..i + |sub|] == sub
  }

  /** Go's `strings.Contains`: some occurrence of `sub` inside `s`. */
  function Contains(s: string, sub: string): (r: bool)
    ensures r <==> exists i :: OccursAt(s, sub, i)
    decreases |s|
  {
    if IsPrefix(sub, s) then
      assert OccursAt(s, sub, 0);
      true
    else if |s| == 0 then
      false
    else
      ShiftOccurrence(s, sub);
      Contains(s[1..], sub)
  }

  /** An occurrence in the tail of `s` is an occurrence in `s` one index later,
      and the only occurrence `s` can add is the one at index 0. */
  lemma ShiftOccurrence(s: string, sub: string)
    requires |s| > 0 && !IsPrefix(sub, s)
    ensures (exists i :: OccursAt(s, sub, i)) <==> (exists i :: OccursAt(s[1..], sub, i))
  {
    forall i | OccursAt(s[1..], sub, i)
      ensures OccursAt(s, sub, i + 1)
    {
      assert s[i + 1..i + 1 + |sub|] == s[1..][i..i + |sub|];
    }
    forall i | OccursAt(s, sub, i)
      ensures OccursAt(s[1..], sub, i - 1)
    {
      assert i > 0 by {
        assert s[0..|sub|] == s[..|sub|];
      }
      var t := s[1..];
      var u, v := t[i - 1..i - 1 + |sub|], s[i..i + |sub|];
      assert forall k :: 0 <= k < |sub| ==> u[k] == v[k];
      assert u == v;
    }
  }

  /** Index of the first `c` in `s`. */
  function IndexOfChar(s: string, c: char): (i: nat)
    requires c in s
    ensures i < |s| && s[i] == c && c !in s[..i]
  {
    if s[0] == c then 0
    else
      var j := IndexOfChar(s[1..], c);
      assert s[..j + 1] == [s[0]] + s[1..][..j];
      j + 1
  }

  /** The segments of `segs` written back together with `sep` between them. */
  function Join(segs: seq<string>, sep: char): string
    decreases |segs|
  {
    if |segs| == 0 then ""
    else if |segs| == 1 then segs[0]
    else segs[0] + [sep] + Join(segs[1..], sep)
  }

  /** Go's `strings.Split(s, string(sep))`: every separator cuts, empty
      segments are kept, and the segments joined back give `s`. */
  function Split(s: string, sep: char): (r: seq<string>)
    ensures |r| >= 1
    ensures forall i :: 0 <= i < |r| ==> sep !in r[i]
    ensures Join(r, sep) == s
    decreases |s|
  {
    if sep !in s then [s]
    else
      var i := IndexOfChar(s, sep);
      var rest := Split(s[i + 1..], sep);
      assert s == s[..i] + [sep] + s[i + 1..];
      [s[..i]] + rest
  }

  /** Splitting undoes joining, for segments that do not contain the separator. */
  lemma {:induction false} SplitJoin(segs: seq<string>, sep: char)
    requires |segs| >= 1
    requires forall i :: 0 <= i < |segs| ==> sep !in segs[i]
    ensures Split(Join(segs, sep), sep) == segs
    decreases |segs|
  {
    if |segs| == 1 {
    } else {
      var s := Join(segs, sep);
      var a := segs[0];
      var tail := Join(segs[1..], sep);
      assert s == a + [sep] + tail;
      assert sep in s by { assert s[|a|] == sep; }
      var i := IndexOfChar(s, sep);
      assert i >= |a| by {
        assert forall k :: 0 <= k < |a| ==> s[k] == a[k];
      }
      assert i <= |a| by {
        forall k | 0 <= k < i
          ensures s[k] != sep
        {
          assert s[..i][k] == s[k];
        }
        assert s[|a|] == sep;
      }
      assert s[..i] == a;
      assert s[i + 1..] == tail;
      SplitJoin(segs[1..], sep);
    }
  }

  /** All the strings of `ss`, in order. */
  function Concat(ss: seq<string>): string
    decreases |ss|
  {
    if |ss| == 0 then "" else ss[0] + Concat(ss[1..])
  }

  /** Concatenation distributes over appending lists of strings. */
  lemma {:induction false} ConcatAppend(a: seq<string>, b: seq<string>)
    ensures Concat(a + b) == Concat(a) + Concat(b)
    decreases |a|
  {
    if |a| == 0 {
      assert a + b == b;
    } else {
      assert (a + b)[1..] == a[1..] + b;
      ConcatAppend(a[1..], b);
    }
  }

  /** One more piece of a concatenation. */
  lemma ConcatStep(ss: seq<string>, k: nat)
    requires k < |ss|
    ensures Concat(ss[k..]) == ss[k] + Concat(ss[k + 1..])
  {
    assert ss[k..][1..] == ss[k + 1..];
  }

  /** The concatenation of eight pieces, written out. */
  lemma Concat8(a: string, b: string, c: string, d: string, e: string, f: string, g: string, h: string)
    ensures Concat([a, b, c, d, e, f, g, h]) == a + b + c + d + e + f + g + h
  {
    var ss := [a, b, c, d, e, f, g, h];
    assert ss[8..] == [];
    ConcatStep(ss, 7);
    ConcatStep(ss, 6);
    ConcatStep(ss, 5);
    ConcatStep(ss, 4);
    ConcatStep(ss, 3);
    ConcatStep(ss, 2);
    ConcatStep(ss, 1);
    ConcatStep(ss, 0);
    assert ss[0..] == ss;
  }

  /** Every piece occurs in the concatenation, after the pieces before it. */
  lemma {:induction false} ConcatOccurs(ss: seq<string>, j: nat)
    requires j < |ss|
    ensures OccursAt(Concat(ss), ss[j], |Concat(ss[..j])|)
    decreases |ss|
  {
    var c := Concat(ss);
    if j == 0 {
      assert ss[..0] == [];
      assert c[0..|ss[0]|] == ss[0];
    } else {
      assert ss[1..][j - 1] == ss[j];
      ConcatOccurs(ss[1..], j - 1);
      assert ss[..j] == [ss[0]] + ss[1..][..j - 1];
      assert ([ss[0]] + ss[1..][..j - 1])[1..] == ss[1..][..j - 1];
      var k := |Concat(ss[1..][..j - 1])|;
      assert c[|ss[0]| + k..|ss[0]| + k + |ss[j]|] == Concat(ss[1..])[k..k + |ss[j]|];
    }
  }

  /** An occurrence inside `b` is one inside `a + b + c`, shifted by `a`. */
  lemma OccursInMiddle(a: string, b: string, c: string, sub: string, i: nat)
    requires OccursAt(b, sub, i)
    ensures OccursAt(a + b + c, sub, |a| + i)
  {
    assert (a + b + c)[|a| + i..|a| + i + |sub|] == b[i..i + |sub|];
  }

  /** A concatenation is empty exactly when every piece is. */
  lemma {:induction false} ConcatEmpty(ss: seq<string>)
    ensures Concat(ss) == "" <==> forall i :: 0 <= i < |ss| ==> ss[i] == ""
    decreases |ss|
  {
    if |ss| > 0 {
      ConcatEmpty(ss[1..]);
      assert forall i :: 1 <= i < |ss| ==> ss[i] == ss[1..][i - 1];
    }
  }

  /** The ASCII lower-case letter for an upper-case one; other characters unchanged. */
  function LowerChar(c: char): char {
    if 'A' <= c <= 'Z' then (c as int - 'A' as int + 'a' as int) as char else c
  }

  /** Go's `strings.ToLower`, restricted to ASCII letters. */
  function Lower(s: string): (r: string)
    ensures |r| == |s|
    ensures forall i :: 0 <= i < |s| ==> r[i] == LowerChar(s[i])
  {
    seq(|s|, i requires 0 <= i < |s| => LowerChar(s[i]))
  }

  // -------------------------------------------------------------- sequences

  /** No element of `s` occurs twice. */
  predicate Distinct<T(==)>(s: seq<T>) {
    forall i, j :: 0 <= i < j < |s| ==> s[i] != s[j]
  }

  /** `order` lists every element of `keys` exactly once: one of the orders in
      which Go may range over a map with those keys. */
  predicate Enumerates<K(==)>(order: seq<K>, keys: set<K>) {
    && Distinct(order)
    && (forall i :: 0 <= i < |order| ==> order[i] in keys)
    && (forall k :: k in keys ==> k in order)
  }

  /** Two enumerations of the same key set hold the same elements, once each. */
  lemma EnumerationsPermute<K>(o1: seq<K>, o2: seq<K>, keys: set<K>)
    requires Enumerates(o1, keys) && Enumerates(o2, keys)
    ensures multiset(o1) == multiset(o2)
  {
    DistinctMultiset(o1);
    DistinctMultiset(o2);
    forall k
      ensures multiset(o1)[k] == multiset(o2)[k]
    {
      if k in keys {
        assert k in o1 && k in o2;
      } else {
        assert k !in o1 && k !in o2;
      }
    }
  }

  /** In a sequence without repetitions every element occurs once. */
  lemma {:induction false} DistinctMultiset<T>(s: seq<T>)
    requires Distinct(s)
    ensures forall x :: multiset(s)[x] == (if x in s then 1 else 0)
    decreases |s|
  {
    if |s| > 0 {
      assert s == [s[0]] + s[1..];
      DistinctMultiset(s[1..]);
      assert s[0] !in s[1..];
    }
  }

  /** Removing the first element of one sequence and an equal element of a
      permutation of it leaves permutations of each other. */
  lemma RemoveMatching<T>(a: seq<T>, b: seq<T>, j: nat)
    requires multiset(a) == multiset(b) && |a| > 0 && j < |b| && b[j] == a[0]
    ensures multiset(a[1..]) == multiset(b[..j] + b[j + 1..])
  {
    assert a == [a[0]] + a[1..];
    assert b == b[..j] + [b[j]] + b[j + 1..];
    assert multiset(a[1..]) == multiset(a) - multiset{a[0]};
    assert multiset(b[..j] + b[j + 1..]) == multiset(b) - multiset{a[0]};
  }

  /** Cutting a middle part out of a sequence takes its elements out of the
      sequence's multiset. */
  lemma SpliceMultiset<T>(whole: seq<T>, rest: seq<T>, a: seq<T>, m: seq<T>, b: seq<T>)
    requires whole == a + (m + b) && rest == a + b
    ensures multiset(whole) == multiset(m) + multiset(rest)
  {
    assert multiset(whole) == multiset(a) + multiset(m + b);
  }

  /** The sequences `f` gives for the elements of `s`, concatenated. */
  function FlatMap<T, U>(s: seq<T>, f: T -> seq<U>): seq<U>
    decreases |s|
  {
    if |s| == 0 then [] else f(s[0]) + FlatMap(s[1..], f)
  }

  lemma {:induction false} FlatMapAppend<T, U>(a: seq<T>, b: seq<T>, f: T -> seq<U>)
    ensures FlatMap(a + b, f) == FlatMap(a, f) + FlatMap(b, f)
    decreases |a|
  {
    if |a| == 0 {
      assert a + b == b;
    } else {
      assert (a + b)[0] == a[0];
      assert (a + b)[1..] == a[1..] + b;
      FlatMapAppend(a[1..], b, f);
    }
  }

  /** What `f` gives for an element of `s` is in the flattened result. */
  lemma {:induction false} FlatMapCovers<T, U>(s: seq<T>, i: nat, f: T -> seq<U>, x: U)
    requires i < |s| && x in f(s[i])
    ensures x in FlatMap(s, f)
    decreases |s|
  {
    InConcat(f(s[0]), FlatMap(s[1..], f), x);
    if i > 0 {
      assert s[1..][i - 1] == s[i];
      FlatMapCovers(s[1..], i - 1, f, x);
    }
  }

  /** Whatever is in the flattened result comes from some element. */
  lemma {:induction false} FlatMapFrom<T, U>(s: seq<T>, f: T -> seq<U>, x: U) returns (i: nat)
    requires x in FlatMap(s, f)
    ensures i < |s| && x in f(s[i])
    decreases |s|
  {
    assert |s| > 0;
    if x in f(s[0]) {
      i := 0;
    } else {
      var a, b := f(s[0]), FlatMap(s[1..], f);
      var k :| 0 <= k < |a + b| && (a + b)[k] == x;
      assert k >= |a| && b[k - |a|] == x;
      var j := FlatMapFrom(s[1..], f, x);
      i := j + 1;
    }
  }

  /** Taking the element at `j` out of `s` takes its part out of the
      flattened multiset. */
  lemma FlatMapRemove<T, U>(s: seq<T>, j: nat, f: T -> seq<U>)
    requires j < |s|
    ensures multiset(FlatMap(s, f)) == multiset(f(s[j])) + multiset(FlatMap(s[..j] + s[j + 1..], f))
  {
    var a, b, tail := s[..j], s[j + 1..], s[j..];
    assert a + tail == s;
    assert tail[0] == s[j] && tail[1..] == b;
    FlatMapAppend(a, tail, f);
    FlatMapAppend(a, b, f);
    assert FlatMap(tail, f) == f(s[j]) + FlatMap(b, f);
    SpliceMultiset(FlatMap(s, f), FlatMap(a + b, f), FlatMap(a, f), f(s[j]), FlatMap(b, f));
  }

  /** Permuting the elements permutes the flattened result. */
  lemma {:induction false} FlatMapPermute<T, U>(s1: seq<T>, s2: seq<T>, f: T -> seq<U>)
    requires multiset(s1) == multiset(s2)
    ensures multiset(FlatMap(s1, f)) == multiset(FlatMap(s2, f))
    decreases |s1|
  {
    if |s1| > 0 {
      var t := s1[0];
      assert t in multiset(s2);
      var j :| 0 <= j < |s2| && s2[j] == t;
      FlatMapRemove(s2, j, f);
      RemoveMatching(s1, s2, j);
      FlatMapPermute(s1[1..], s2[..j] + s2[j + 1..], f);
      assert FlatMap(s1, f) == f(t) + FlatMap(s1[1..], f);
    } else {
      assert s2 == [];
    }
  }

  /** An element of either part is an element of the concatenation. */
  lemma InConcat<T>(a: seq<T>, b: seq<T>, x: T)
    ensures x in a ==> x in a + b
    ensures x in b ==> x in a + b
  {
    if x in a {
      var k :| 0 <= k < |a| && a[k] == x;
      assert (a + b)[k] == x;
    }
    if x in b {
      var k :| 0 <= k < |b| && b[k] == x;
      assert (a + b)[|a| + k] == x;
    }
  }

  /** The elements of `s` that satisfy `p`, in their original order. */
  function Filter<T>(s: seq<T>, p: T -> bool): (r: seq<T>)
    ensures |r| <= |s|
    ensures forall i :: 0 <= i < |r| ==> r[i] in s && p(r[i])
    ensures forall i :: 0 <= i < |s| && p(s[i]) ==> s[i] in r
    decreases |s|
  {
    if |s| == 0 then []
    else (if p(s[0]) then [s[0]] else []) + Filter(s[1..], p)
  }

  /** Filtering distributes over appending. */
  lemma {:induction false} FilterAppend<T>(a: seq<T>, b: seq<T>, p: T -> bool)
    ensures Filter(a + b, p) == Filter(a, p) + Filter(b, p)
    decreases |a|
  {
    if |a| == 0 {
      assert a + b == b;
    } else {
      assert (a + b)[1..] == a[1..] + b;
      FilterAppend(a[1..], b, p);
    }
  }
}
