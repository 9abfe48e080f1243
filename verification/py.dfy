/** The parts of Python 2 that the bot's logic leans on: the exceptions that
    escape its code paths, and the handful of `str` and `list` methods it
    calls. A string is valid UTF-8 text, already decoded to `seq<char>`;
    byte strings that are not valid UTF-8 are not modelled. */
module Py {

  /** Exception classes that can escape the modelled code paths. */
  datatype PyError =
    | KeyError       // subscript of a dict with a missing key
    | ValueError     // list.remove of an absent element; strptime/strftime rejection
    | IndexError     // subscript past the end of a split result
    | TypeError      // call with the wrong number of positional arguments
    | OverflowError  // datetime arithmetic past year 9999
    | RemoteError    // any failure raised inside the wiki client library
    | NameError      // a global name the code refers to is not defined

  datatype Option<+T> = None | Some(value: T)

  /** The outcome of a Python call: a value, or an exception propagating to the caller. */
  datatype Result<+T> = Ok(value: T) | Raised(error: PyError)

  // ---------------------------------------------------------------------------
  // str.lower: Python 2 byte strings fold only the ASCII letters.

  function LowerChar(c: char): char {
    if 'A' <= c <= 'Z' then (c as int + 32) as char else c
  }

  function Lower(s: string): (r: string)
    ensures |r| == |s|
    ensures forall i :: 0 <= i < |s| ==> r[i] == LowerChar(s[i])
  {
    seq(|s|, i requires 0 <= i < |s| => LowerChar(s[i]))
  }

  /** `s` holds no upper-case ASCII letter, i.e. `s.lower() == s`. */
  predicate IsLower(s: string) {
    forall i :: 0 <= i < |s| ==> !('A' <= s[i] <= 'Z')
  }

  /** Lower-casing yields a lower-case string, and it changes exactly the
      strings that are not already lower-case. */
  lemma LowerIsLower(s: string)
    ensures IsLower(Lower(s))
    ensures Lower(s) == s <==> IsLower(s)
  {
    if Lower(s) == s {
      forall i | 0 <= i < |s| ensures !('A' <= s[i] <= 'Z') {
        assert LowerChar(s[i]) == s[i];
      }
    }
  }

  // ---------------------------------------------------------------------------
  // Searching: `x in s` and the position list.index would report.

  function IndexOf<T(==)>(s: seq<T>, x: T): (i: nat)
    requires x in s
    ensures i < |s| && s[i] == x
    ensures x !in s[..i]
  {
    if s[0] == x then 0
    else
      var j := IndexOf(s[1..], x);
      assert s[..j + 1] == [s[0]] + s[1..][..j];
      j + 1
  }

  lemma IndexOfAfterPrefix<T>(a: seq<T>, x: T, b: seq<T>)
    requires x !in a
    ensures IndexOf(a + [x] + b, x) == |a|
  {
    var s := a + [x] + b;
    assert s[|a|] == x;
    assert forall k :: 0 <= k < |a| ==> s[k] == a[k];
  }

  // ---------------------------------------------------------------------------
  // sep.join(parts) and s.split(sep), for a one-character separator.

  function Join(parts: seq<string>, sep: char): string {
    if |parts| == 0 then ""
    else if |parts| == 1 then parts[0]
    else parts[0] + [sep] + Join(parts[1..], sep)
  }

  /** `s.split(sep)` with an explicit separator: every occurrence splits, empty
      pieces are kept, and the empty string yields one empty piece. */
  function Split(s: string, sep: char): (parts: seq<string>)
    ensures |parts| >= 1
    ensures forall i :: 0 <= i < |parts| ==> sep !in parts[i]
    ensures Join(parts, sep) == s
    decreases |s|
  {
    if sep !in s then [s]
    else
      var i := IndexOf(s, sep);
      var rest := Split(s[i + 1..], sep);
      var parts := [s[..i]] + rest;
      assert parts[1..] == rest;
      assert s == s[..i] + [sep] + s[i + 1..];
      parts
  }

  /** Splitting undoes joining, for pieces that do not contain the separator. */
  lemma {:induction false} SplitJoin(parts: seq<string>, sep: char)
    requires |parts| >= 1
    requires forall i :: 0 <= i < |parts| ==> sep !in parts[i]
    ensures Split(Join(parts, sep), sep) == parts
    decreases |parts|
  {
    if |parts| > 1 {
      assert sep !in parts[0];
      SplitAtFirst(parts[0], sep, Join(parts[1..], sep));
      SplitJoin(parts[1..], sep);
      assert [parts[0]] + parts[1..] == parts;
    }
  }

  /** Splitting at a first separator gives the text before it, then the
      pieces of the text after it. */
  lemma SplitAtFirst(head: string, sep: char, rest: string)
    requires sep !in head
    ensures Split(head + [sep] + rest, sep) == [head] + Split(rest, sep)
  {
    var s := head + [sep] + rest;
    IndexOfAfterPrefix(head, sep, rest);
    assert s[..|head|] == head;
    assert s[|head| + 1..] == rest;
  }

  /** `s.split(sep, 1)`: the text before the first separator and, when there is
      one, the text after it. */
  function SplitOnce(s: string, sep: char): (parts: seq<string>)
    ensures 1 <= |parts| <= 2
    ensures |parts| == 2 <==> sep in s
    ensures sep !in parts[0]
    ensures Join(parts, sep) == s
    ensures sep in s ==> parts == [s[..IndexOf(s, sep)], s[IndexOf(s, sep) + 1..]]
  {
    if sep in s then
      var i := IndexOf(s, sep);
      assert s == s[..i] + [sep] + s[i + 1..];
      [s[..i], s[i + 1..]]
    else [s]
  }

  // ---------------------------------------------------------------------------
  // s.strip(c) for a single character c.

  /** How many copies of `c` open `s`. */
  function Leading(s: string, c: char): (n: nat)
    ensures n <= |s|
    ensures forall i :: 0 <= i < n ==> s[i] == c
    ensures n < |s| ==> s[n] != c
  {
    if |s| > 0 && s[0] == c then 1 + Leading(s[1..], c) else 0
  }

  function StripRight(s: string, c: char): (r: string)
    ensures |r| <= |s| && r == s[..|r|]
    ensures forall i :: |r| <= i < |s| ==> s[i] == c
    ensures |r| > 0 ==> r[|r| - 1] != c
  {
    if |s| > 0 && s[|s| - 1] == c then StripRight(s[..|s| - 1], c) else s
  }

  /** `s.strip(c)`: the longest infix of `s` that neither starts nor ends with
      `c`, once every copy of `c` around it is removed. */
  function Strip(s: string, c: char): (r: string)
    ensures Leading(s, c) + |r| <= |s|
    ensures r == s[Leading(s, c)..Leading(s, c) + |r|]
    ensures forall i :: 0 <= i < |s| && !(Leading(s, c) <= i < Leading(s, c) + |r|) ==> s[i] == c
    ensures |r| > 0 ==> r[0] != c && r[|r| - 1] != c
    ensures forall x :: x in r ==> x in s
  {
    var n := Leading(s, c);
    var r := StripRight(s[n..], c);
    assert forall i :: n + |r| <= i < |s| ==> s[i] == s[n..][i - n];
    InfixMembers(s, n, n + |r|);
    r
  }

  /** Every element of an infix is an element of the whole. */
  lemma InfixMembers<T>(s: seq<T>, lo: nat, hi: nat)
    requires lo <= hi <= |s|
    ensures forall x :: x in s[lo..hi] ==> x in s
  {
    forall x | x in s[lo..hi]
      ensures x in s
    {
      var i :| 0 <= i < hi - lo && s[lo..hi][i] == x;
      assert s[lo + i] == x;
    }
  }

  // ---------------------------------------------------------------------------
  // `a < b` on Python strings: lexicographic by character code.

  predicate LexLess(a: string, b: string)
    decreases |a|
  {
    if |a| == 0 then |b| > 0
    else if |b| == 0 then false
    else a[0] < b[0] || (a[0] == b[0] && LexLess(a[1..], b[1..]))
  }

  predicate LexLeq(a: string, b: string) {
    a == b || LexLess(a, b)
  }

  lemma {:induction false} LexLessIrreflexive(a: string)
    ensures !LexLess(a, a)
    decreases |a|
  {
    if |a| > 0 {
      LexLessIrreflexive(a[1..]);
    }
  }

  lemma {:induction false} LexLessAsymmetric(a: string, b: string)
    requires LexLess(a, b)
    ensures !LexLess(b, a) && a != b
    decreases |a|
  {
    if |a| > 0 && a[0] == b[0] {
      LexLessAsymmetric(a[1..], b[1..]);
    }
    if a == b {
      LexLessIrreflexive(a);
    }
  }

  lemma {:induction false} LexLessTransitive(a: string, b: string, c: string)
    requires LexLess(a, b) && LexLess(b, c)
    ensures LexLess(a, c)
    decreases |a|
  {
    if |a| > 0 && a[0] == b[0] && b[0] == c[0] {
      LexLessTransitive(a[1..], b[1..], c[1..]);
    }
  }

  /** Comparing two strings that open with equal-length heads compares the
      heads first and falls back to the tails when the heads agree. */
  lemma {:induction false} LexLessConcat(a1: string, b1: string, a2: string, b2: string)
    requires |a1| == |a2|
    ensures LexLess(a1 + b1, a2 + b2) <==> LexLess(a1, a2) || (a1 == a2 && LexLess(b1, b2))
    decreases |a1|
  {
    if |a1| == 0 {
      assert a1 + b1 == b1 && a2 + b2 == b2;
    } else {
      assert (a1 + b1)[1..] == a1[1..] + b1;
      assert (a2 + b2)[1..] == a2[1..] + b2;
      LexLessConcat(a1[1..], b1, a2[1..], b2);
      if a1[0] == a2[0] && a1[1..] == a2[1..] {
        assert a1 == [a1[0]] + a1[1..] && a2 == [a2[0]] + a2[1..];
      }
    }
  }
}
