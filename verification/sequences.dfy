/** Splitting a sequence on a separator element and joining a list of
    sequences with a separator, with the semantics of Python's `str.split(sep)`
    and `sep.join(parts)`. */
module Sequences {

  /** `sep.join(parts)`: the parts with `sep` between neighbours. The result
      opens with the first part; `JoinPart` places every later one. */
  function Join<T>(parts: seq<seq<T>>, sep: seq<T>): (r: seq<T>)
    ensures |parts| == 0 ==> r == []
    ensures |parts| >= 1 ==> parts[0] <= r
  {
    if |parts| == 0 then []
    else if |parts| == 1 then parts[0]
    else parts[0] + sep + Join(parts[1..], sep)
  }

  /** The summed length of the parts. */
  function TotalLength<T>(parts: seq<seq<T>>): nat
  {
    if |parts| == 0 then 0 else |parts[0]| + TotalLength(parts[1..])
  }

  /** Where part `i` starts in `Join(parts, sep)`: after the `i` earlier parts
      and their `i` separators. */
  function PartOffset<T>(parts: seq<seq<T>>, sep: seq<T>, i: nat): nat
    requires i <= |parts|
  {
    if i == 0 then 0 else |parts[0]| + |sep| + PartOffset(parts[1..], sep, i - 1)
  }

  /** The offset of part `i` counts the `i` earlier parts and one separator
      after each of them. */
  lemma {:induction false} PartOffsetValue<T>(parts: seq<seq<T>>, sep: seq<T>, i: nat)
    requires i <= |parts|
    ensures PartOffset(parts, sep, i) == TotalLength(parts[..i]) + i * |sep|
    decreases i
  {
    if i > 0 {
      PartOffsetValue(parts[1..], sep, i - 1);
      assert parts[..i][1..] == parts[1..][..i - 1];
      assert i * |sep| == |sep| + (i - 1) * |sep|;
    }
  }

  /** Part `i + 1` starts one separator after part `i` ends. */
  lemma {:induction false} PartOffsetNext<T>(parts: seq<seq<T>>, sep: seq<T>, i: nat)
    requires i < |parts|
    ensures PartOffset(parts, sep, i + 1) == PartOffset(parts, sep, i) + |parts[i]| + |sep|
    decreases i
  {
    if i > 0 {
      PartOffsetNext(parts[1..], sep, i - 1);
    }
  }

  /** Part `i` sits in the joined sequence at `PartOffset(parts, sep, i)`,
      and, unless it is the last part, the separator follows it directly. */
  lemma {:induction false} JoinPart<T>(parts: seq<seq<T>>, sep: seq<T>, i: nat)
    requires i < |parts|
    ensures PartOffset(parts, sep, i) + |parts[i]| <= |Join(parts, sep)|
    ensures Join(parts, sep)[PartOffset(parts, sep, i)..PartOffset(parts, sep, i) + |parts[i]|] == parts[i]
    ensures i + 1 < |parts| ==>
      PartOffset(parts, sep, i + 1) == PartOffset(parts, sep, i) + |parts[i]| + |sep| <= |Join(parts, sep)|
    ensures i + 1 < |parts| ==>
      Join(parts, sep)[PartOffset(parts, sep, i) + |parts[i]|..PartOffset(parts, sep, i + 1)] == sep
    decreases i, 1
  {
    if i == 0 {
      JoinFirst(parts, sep);
      if 1 < |parts| {
        PartOffsetNext(parts, sep, 0);
      }
    } else {
      JoinLaterPart(parts, sep, i);
    }
  }

  /** `JoinPart` for a part after the first: it is placed in the join of the
      remaining parts, behind the first part and one separator. */
  lemma {:induction false} JoinLaterPart<T>(parts: seq<seq<T>>, sep: seq<T>, i: nat)
    requires 0 < i < |parts|
    ensures PartOffset(parts, sep, i) + |parts[i]| <= |Join(parts, sep)|
    ensures Join(parts, sep)[PartOffset(parts, sep, i)..PartOffset(parts, sep, i) + |parts[i]|] == parts[i]
    ensures i + 1 < |parts| ==>
      PartOffset(parts, sep, i + 1) == PartOffset(parts, sep, i) + |parts[i]| + |sep| <= |Join(parts, sep)|
    ensures i + 1 < |parts| ==>
      Join(parts, sep)[PartOffset(parts, sep, i) + |parts[i]|..PartOffset(parts, sep, i + 1)] == sep
    decreases i, 0
  {
    if i + 1 < |parts| {
      PartOffsetNext(parts, sep, i);
    }
    assert parts[1..][i - 1] == parts[i];
    JoinPart(parts[1..], sep, i - 1);
    var head := parts[0] + sep;
    var rest := Join(parts[1..], sep);
    assert Join(parts, sep) == head + rest;
    var o := PartOffset(parts[1..], sep, i - 1);
    assert PartOffset(parts, sep, i) == |head| + o;
    if i + 1 < |parts| {
      assert PartOffset(parts, sep, i + 1) == |head| + PartOffset(parts[1..], sep, i);
      ShiftedPart(head, rest, o, parts[i], sep, PartOffset(parts[1..], sep, i));
    } else {
      ShiftedPart(head, rest, o, parts[i], sep, o + |parts[i]|);
    }
  }

  /** Placing `head` in front moves a part and the separator after it
      back by `|head|`. */
  lemma ShiftedPart<T>(head: seq<T>, rest: seq<T>, o: nat, p: seq<T>, sep: seq<T>, next: nat)
    requires o + |p| <= next <= |rest|
    requires rest[o..o + |p|] == p
    requires next != o + |p| ==> rest[o + |p|..next] == sep
    ensures (head + rest)[|head| + o..|head| + o + |p|] == p
    ensures next != o + |p| ==> (head + rest)[|head| + o + |p|..|head| + next] == sep
  {
    assert (head + rest)[|head| + o..|head| + o + |p|] == rest[o..o + |p|];
    assert (head + rest)[|head| + o + |p|..|head| + next] == rest[o + |p|..next];
  }

  /** The first part opens the joined sequence, followed by the separator
      when there are more parts. */
  lemma JoinFirst<T>(parts: seq<seq<T>>, sep: seq<T>)
    requires |parts| >= 1
    ensures PartOffset(parts, sep, 0) == 0
    ensures |parts| > 1 ==> |parts[0]| + |sep| <= |Join(parts, sep)|
    ensures |parts| > 1 ==> Join(parts, sep)[|parts[0]|..|parts[0]| + |sep|] == sep
  {
    if |parts| > 1 {
      assert Join(parts, sep) == parts[0] + sep + Join(parts[1..], sep);
    }
  }

  /** `s.split(sep)`: the maximal runs of `s` between occurrences of `sep`.
      There is always at least one part, and no part contains `sep`. */
  function Split<T(==)>(s: seq<T>, sep: T): (r: seq<seq<T>>)
    ensures |r| >= 1
    ensures forall i :: 0 <= i < |r| ==> sep !in r[i]
    decreases |s|
  {
    if |s| == 0 then [[]]
    else
      var rest := Split(s[1..], sep);
      if s[0] == sep then [[]] + rest
      else [[s[0]] + rest[0]] + rest[1..]
  }

  /** Number of occurrences of `x` in `s`. */
  function Count<T(==)>(s: seq<T>, x: T): nat
  {
    if |s| == 0 then 0 else (if s[0] == x then 1 else 0) + Count(s[1..], x)
  }

  /** A sequence without the separator is a single part. */
  lemma {:induction false} SplitWithoutSeparator<T>(s: seq<T>, sep: T)
    requires sep !in s
    ensures Split(s, sep) == [s]
    decreases |s|
  {
    if |s| > 0 {
      SplitWithoutSeparator(s[1..], sep);
      assert [s[0]] + s[1..] == s;
    }
  }

  /** A separator-free prefix followed by the separator becomes the first part. */
  lemma {:induction false} SplitAfterPart<T>(a: seq<T>, sep: T, b: seq<T>)
    requires sep !in a
    ensures Split(a + [sep] + b, sep) == [a] + Split(b, sep)
    decreases |a|
  {
    var s := a + [sep] + b;
    if |a| == 0 {
      assert s[1..] == b;
    } else {
      assert s[1..] == a[1..] + [sep] + b;
      SplitAfterPart(a[1..], sep, b);
      assert [a[0]] + a[1..] == a;
    }
  }

  /** Splitting undoes joining when no part contains the separator. */
  lemma {:induction false} SplitJoin<T>(parts: seq<seq<T>>, sep: T)
    requires |parts| >= 1
    requires forall i :: 0 <= i < |parts| ==> sep !in parts[i]
    ensures Split(Join(parts, [sep]), sep) == parts
    decreases |parts|
  {
    if |parts| == 1 {
      SplitWithoutSeparator(parts[0], sep);
    } else {
      SplitJoin(parts[1..], sep);
      SplitAfterPart(parts[0], sep, Join(parts[1..], [sep]));
      assert [parts[0]] + parts[1..] == parts;
    }
  }

  /** Joining undoes splitting, for every sequence. */
  lemma {:induction false} JoinSplit<T>(s: seq<T>, sep: T)
    ensures Join(Split(s, sep), [sep]) == s
    decreases |s|
  {
    if |s| > 0 {
      var rest := Split(s[1..], sep);
      JoinSplit(s[1..], sep);
      if s[0] == sep {
        assert Join([[]] + rest, [sep]) == [] + [sep] + Join(rest, [sep]);
      } else {
        var r := [[s[0]] + rest[0]] + rest[1..];
        if |rest| == 1 {
          assert r == [[s[0]] + rest[0]];
        } else {
          assert r[1..] == rest[1..];
          assert Join(rest, [sep]) == rest[0] + [sep] + Join(rest[1..], [sep]);
        }
      }
    }
  }

  /** Occurrences add up over a concatenation. */
  lemma {:induction false} CountConcat<T>(a: seq<T>, b: seq<T>, x: T)
    ensures Count(a + b, x) == Count(a, x) + Count(b, x)
    decreases |a|
  {
    if |a| > 0 {
      assert (a + b)[0] == a[0];
      assert (a + b)[1..] == a[1..] + b;
      CountConcat(a[1..], b, x);
    } else {
      assert a + b == b;
    }
  }

  /** A sequence has no occurrence of `x` exactly when it does not contain it. */
  lemma {:induction false} CountZero<T>(s: seq<T>, x: T)
    ensures Count(s, x) == 0 <==> x !in s
    decreases |s|
  {
    if |s| > 0 {
      CountZero(s[1..], x);
      assert s == [s[0]] + s[1..];
    }
  }

  /** The summed occurrences over all parts. */
  function CountAll<T(==)>(parts: seq<seq<T>>, x: T): nat
  {
    if |parts| == 0 then 0 else Count(parts[0], x) + CountAll(parts[1..], x)
  }

  /** Joining with a one-element separator adds one occurrence of it for
      each neighbouring pair of parts. */
  lemma {:induction false} CountJoin<T>(parts: seq<seq<T>>, sep: T)
    requires |parts| >= 1
    ensures Count(Join(parts, [sep]), sep) == CountAll(parts, sep) + |parts| - 1
    decreases |parts|
  {
    if |parts| > 1 {
      CountJoin(parts[1..], sep);
      CountConcat(parts[0] + [sep], Join(parts[1..], [sep]), sep);
      CountConcat(parts[0], [sep], sep);
    }
  }

  /** `s.split(sep)` has exactly one more part than `s` has separators. */
  lemma {:induction false} SplitLength<T>(s: seq<T>, sep: T)
    ensures |Split(s, sep)| == Count(s, sep) + 1
    decreases |s|
  {
    if |s| > 0 {
      SplitLength(s[1..], sep);
    }
  }
}
