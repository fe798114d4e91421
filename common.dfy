/** Shared value types and the string and ordering helpers that the
    repositories and services rely on: optional values, thrown errors,
    JavaScript's `trim`, `split` and substring search, and the stable sort
    that stands for an SQL `ORDER BY`. */
module Common {

  /** `undefined`/`null` versus a present value. */
  datatype Option<T> = None | Some(value: T) {
    function GetOr(default: T): T {
      match this
      case Some(v) => v
      case None => default
    }
  }

  /** An octet. */
  type Byte = b: int | 0 <= b < 256

  /** A call that either returns a value or throws an `Error` with a message. */
  datatype Result<T> = Ok(value: T) | Err(message: string)

  // ---------------------------------------------------------------------
  // Whitespace and trimming, as JavaScript's String.prototype.trim sees it
  // ---------------------------------------------------------------------

  /** The white-space and line-terminator characters that `trim` removes. */
  predicate IsWhitespace(c: char) {
    || c == '\t' || c == '\n' || c == '\U{000B}' || c == '\U{000C}' || c == '\r'
    || c == ' ' || c == '\U{00A0}' || c == '\U{1680}'
    || ('\U{2000}' <= c <= '\U{200A}')
    || c == '\U{2028}' || c == '\U{2029}' || c == '\U{202F}' || c == '\U{205F}'
    || c == '\U{3000}' || c == '\U{FEFF}'
  }

  /** Drops leading white space. */
  function TrimStart(s: string): (r: string)
    ensures |r| <= |s| && r == s[|s| - |r|..]
    ensures r == [] || !IsWhitespace(r[0])
    ensures forall i :: 0 <= i < |s| - |r| ==> IsWhitespace(s[i])
  {
    if |s| > 0 && IsWhitespace(s[0]) then TrimStart(s[1..]) else s
  }

  /** Drops trailing white space. */
  function TrimEnd(s: string): (r: string)
    ensures |r| <= |s| && r == s[..|r|]
    ensures r == [] || !IsWhitespace(r[|r| - 1])
    ensures forall i :: |r| <= i < |s| ==> IsWhitespace(s[i])
  {
    if |s| > 0 && IsWhitespace(s[|s| - 1]) then TrimEnd(s[..|s| - 1]) else s
  }

  /** `s.trim()`: the text between the first and the last non-blank character. */
  function Trim(s: string): (r: string)
    ensures |r| <= |s|
    ensures r == [] || (!IsWhitespace(r[0]) && !IsWhitespace(r[|r| - 1]))
    ensures forall c :: c in r ==> c in s
    ensures r == [] <==> forall i :: 0 <= i < |s| ==> IsWhitespace(s[i])
  {
    var t := TrimStart(s);
    TrimKeepsCharacters(s, t, TrimEnd(t));
    TrimEmptyWhenBlank(s, t, TrimEnd(t));
    TrimEnd(t)
  }

  /** A piece of a piece of `s` has only characters of `s`. */
  lemma TrimKeepsCharacters(s: string, t: string, r: string)
    requires |t| <= |s| && t == s[|s| - |t|..]
    requires |r| <= |t| && r == t[..|r|]
    ensures forall c :: c in r ==> c in s
  {
    forall c | c in r ensures c in s {
      var i :| 0 <= i < |r| && r[i] == c;
      assert r[i] == t[i];
      assert t[i] == s[|s| - |t| + i];
    }
  }

  lemma TrimEmptyWhenBlank(s: string, t: string, r: string)
    requires t == TrimStart(s) && r == TrimEnd(t)
    ensures r == [] <==> forall i :: 0 <= i < |s| ==> IsWhitespace(s[i])
  {
    if t != [] {
      assert !IsWhitespace(s[|s| - |t|]);
    }
  }

  /** A string is blank when trimming leaves nothing: the source's
      `!x || x.trim() === ""` test on a present string. */
  predicate IsBlank(s: string) {
    Trim(s) == ""
  }

  // ---------------------------------------------------------------------
  // Substring search (an SQL `LIKE '%q%'`, without wildcards or collation)
  // ---------------------------------------------------------------------

  predicate IsPrefix(q: string, s: string) {
    |q| <= |s| && s[..|q|] == q
  }

  /** `q` occurs somewhere in `s`. */
  predicate Contains(s: string, q: string)
    decreases |s|
  {
    IsPrefix(q, s) || (|s| > 0 && Contains(s[1..], q))
  }

  // ---------------------------------------------------------------------
  // String.prototype.split with a one-character separator, and its inverse
  // ---------------------------------------------------------------------

  /** `s.split(sep)`: the maximal separator-free pieces, in order. Like
      JavaScript, the empty string splits into one empty piece. */
  function Split(s: string, sep: char): (parts: seq<string>)
    ensures |parts| >= 1
    ensures forall i :: 0 <= i < |parts| ==> sep !in parts[i]
    decreases |s|
  {
    if |s| == 0 then [""]
    else
      var rest := Split(s[1..], sep);
      if s[0] == sep then [""] + rest
      else [[s[0]] + rest[0]] + rest[1..]
  }

  /** `parts.join(sep)`. */
  function Join(parts: seq<string>, sep: char): string
    decreases |parts|
  {
    if |parts| == 0 then ""
    else if |parts| == 1 then parts[0]
    else parts[0] + [sep] + Join(parts[1..], sep)
  }

  /** Splitting loses nothing: joining the pieces gives back the text. */
  lemma {:induction false} JoinSplit(s: string, sep: char)
    ensures Join(Split(s, sep), sep) == s
    decreases |s|
  {
    if |s| > 0 {
      var rest := Split(s[1..], sep);
      JoinSplit(s[1..], sep);
      if s[0] == sep {
        assert Split(s, sep) == [""] + rest;
        assert s == [sep] + s[1..];
      } else {
        var parts := Split(s, sep);
        assert parts == [[s[0]] + rest[0]] + rest[1..];
        if |rest| == 1 {
          assert s == [s[0]] + rest[0];
        } else {
          assert Join(rest, sep) == rest[0] + [sep] + Join(rest[1..], sep);
          assert parts[1..] == rest[1..];
          assert s == [s[0]] + s[1..];
        }
      }
    }
  }

  /** Text without the separator is one piece. */
  lemma {:induction false} SplitWithoutSeparator(x: string, sep: char)
    requires sep !in x
    ensures Split(x, sep) == [x]
    decreases |x|
  {
    if |x| > 0 {
      assert sep !in x[1..] by {
        forall i | 0 <= i < |x[1..]| ensures x[1..][i] != sep { assert x[1..][i] == x[i + 1]; }
      }
      SplitWithoutSeparator(x[1..], sep);
      assert [x[0]] + x[1..] == x;
    }
  }

  /** The first separator ends the first piece. */
  lemma {:induction false} SplitAtFirst(x: string, sep: char, y: string)
    requires sep !in x
    ensures Split(x + [sep] + y, sep) == [x] + Split(y, sep)
    decreases |x|
  {
    var s := x + [sep] + y;
    if |x| == 0 {
      assert s[1..] == y;
    } else {
      assert s[1..] == x[1..] + [sep] + y;
      assert sep !in x[1..] by {
        forall i | 0 <= i < |x[1..]| ensures x[1..][i] != sep { assert x[1..][i] == x[i + 1]; }
      }
      SplitAtFirst(x[1..], sep, y);
      assert [x[0]] + x[1..] == x;
    }
  }

  /** There is more than one piece exactly when the separator occurs. */
  lemma {:induction false} SplitCountsSeparator(s: string, sep: char)
    ensures |Split(s, sep)| >= 2 <==> sep in s
    decreases |s|
  {
    if |s| > 0 {
      SplitCountsSeparator(s[1..], sep);
      assert s == [s[0]] + s[1..];
    }
  }

  // ---------------------------------------------------------------------
  // Row selection (an SQL `WHERE`), keeping storage order
  // ---------------------------------------------------------------------

  /** The elements of `s` that satisfy `p`, in their original order. */
  function Filter<T(!new)>(s: seq<T>, p: T -> bool): (r: seq<T>)
    ensures |r| <= |s|
    ensures forall x :: x in r <==> x in s && p(x)
    decreases |s|
  {
    if s == [] then []
    else (if p(s[0]) then [s[0]] else []) + Filter(s[1..], p)
  }

  /** Selecting from two stretches of rows selects from each in turn. */
  lemma {:induction false} FilterAppend<T(!new)>(a: seq<T>, b: seq<T>, p: T -> bool)
    ensures Filter(a + b, p) == Filter(a, p) + Filter(b, p)
    decreases |a|
  {
    if a == [] {
      assert a + b == b;
    } else {
      assert (a + b)[0] == a[0] && (a + b)[1..] == a[1..] + b;
      FilterAppend(a[1..], b, p);
    }
  }

  /** The first element that satisfies `p` (`rows[0]` of a `WHERE`). */
  function First<T>(s: seq<T>, p: T -> bool): (r: Option<T>)
    ensures r.None? <==> forall i :: 0 <= i < |s| ==> !p(s[i])
    ensures r.Some? ==> exists i ::
      && 0 <= i < |s| && s[i] == r.value && p(s[i])
      && forall j :: 0 <= j < i ==> !p(s[j])
    decreases |s|
  {
    if s == [] then None
    else if p(s[0]) then Some(s[0])
    else
      assert forall i :: 1 <= i < |s| ==> s[i] == s[1..][i - 1];
      First(s[1..], p)
  }

  /** Nothing is selected when no element satisfies `p`. */
  lemma {:induction false} FilterNoneEmpty<T(!new)>(s: seq<T>, p: T -> bool)
    requires forall i :: 0 <= i < |s| ==> !p(s[i])
    ensures Filter(s, p) == []
    decreases |s|
  {
    if s != [] {
      assert forall i :: 0 <= i < |s[1..]| ==> s[1..][i] == s[i + 1];
      FilterNoneEmpty(s[1..], p);
    }
  }

  /** Selecting drops at least one element when some element fails `p`. */
  lemma {:induction false} FilterDropsSome<T(!new)>(s: seq<T>, p: T -> bool, x: T)
    requires x in s && !p(x)
    ensures |Filter(s, p)| < |s|
    decreases |s|
  {
    if s[0] != x {
      assert x in s[1..];
      FilterDropsSome(s[1..], p, x);
    }
  }

  /** No two elements share a key (a primary key). */
  predicate DistinctBy<T, K(==)>(s: seq<T>, key: T -> K) {
    forall i, j :: 0 <= i < j < |s| ==> key(s[i]) != key(s[j])
  }

  /** Deleting rows keeps a primary key unique. */
  lemma {:induction false} FilterKeepsDistinct<T(!new), K>(s: seq<T>, p: T -> bool, key: T -> K)
    requires DistinctBy(s, key)
    ensures DistinctBy(Filter(s, p), key)
    decreases |s|
  {
    if s != [] {
      var rest := Filter(s[1..], p);
      FilterKeepsDistinct(s[1..], p, key);
      if p(s[0]) {
        forall j | 0 <= j < |rest| ensures key(s[0]) != key(rest[j]) {
          assert rest[j] in s[1..];
          var k :| 0 <= k < |s[1..]| && s[1..][k] == rest[j];
          assert s[k + 1] == rest[j];
        }
        var r := [s[0]] + rest;
        forall i, j | 0 <= i < j < |r| ensures key(r[i]) != key(r[j]) {
          if i > 0 { assert r[i] == rest[i - 1] && r[j] == rest[j - 1]; }
          else { assert r[j] == rest[j - 1]; }
        }
      } else {
        assert Filter(s, p) == rest;
      }
    }
  }

  /** Adding a row whose key is new keeps a primary key unique. */
  lemma DistinctByAppend<T, K>(s: seq<T>, x: T, key: T -> K)
    requires DistinctBy(s, key)
    requires forall i :: 0 <= i < |s| ==> key(s[i]) != key(x)
    ensures DistinctBy(s + [x], key)
  {
    var r := s + [x];
    forall i, j | 0 <= i < j < |r| ensures key(r[i]) != key(r[j]) {
      assert r[i] == s[i];
      if j < |s| { assert r[j] == s[j]; }
    }
  }

  // ---------------------------------------------------------------------
  // Stable sorting (stands for ORDER BY; equal keys keep table order)
  // ---------------------------------------------------------------------

  /** `le` orders every pair and is transitive. */
  ghost predicate IsTotalPreorder<T(!new)>(le: (T, T) -> bool) {
    && (forall a, b :: le(a, b) || le(b, a))
    && (forall a, b, c :: le(a, b) && le(b, c) ==> le(a, c))
  }

  predicate SortedBy<T>(s: seq<T>, le: (T, T) -> bool) {
    forall i, j :: 0 <= i < j < |s| ==> le(s[i], s[j])
  }

  /** Puts `x` before the first element it does not follow. */
  function Insert<T(!new)>(x: T, s: seq<T>, le: (T, T) -> bool): (r: seq<T>)
    requires IsTotalPreorder(le) && SortedBy(s, le)
    ensures SortedBy(r, le)
    ensures multiset(r) == multiset(s) + multiset{x}
    decreases |s|
  {
    if s == [] then [x]
    else if le(x, s[0]) then [x] + s
    else
      var tail := Insert(x, s[1..], le);
      assert forall i :: 0 <= i < |tail| ==> le(s[0], tail[i]) by {
        forall i | 0 <= i < |tail| ensures le(s[0], tail[i]) {
          assert tail[i] in multiset(tail);
          assert tail[i] == x || tail[i] in multiset(s[1..]);
          if tail[i] != x {
            var k :| 0 <= k < |s[1..]| && s[1..][k] == tail[i];
            assert s[k + 1] == tail[i];
          }
        }
      }
      assert s == [s[0]] + s[1..];
      [s[0]] + tail
  }

  /** A stable insertion sort: the result is `s` reordered by `le`. */
  function SortBy<T(!new)>(s: seq<T>, le: (T, T) -> bool): (r: seq<T>)
    requires IsTotalPreorder(le)
    ensures SortedBy(r, le)
    ensures multiset(r) == multiset(s)
    ensures |r| == |s|
    decreases |s|
  {
    if s == [] then []
    else
      assert s == [s[0]] + s[1..];
      Insert(s[0], SortBy(s[1..], le), le)
  }

  /** `(page - 1) * limit`, the rows skipped before a page. */
  function Offset(page: int, limit: int): (offset: int)
    ensures page >= 1 && limit >= 0 ==> offset >= 0
  {
    (page - 1) * limit
  }

  /** `LIMIT limit OFFSET offset` on an already ordered result. */
  function Page<T>(s: seq<T>, offset: nat, limit: nat): (r: seq<T>)
    ensures |r| <= limit
    ensures offset <= |s| ==> offset + |r| <= |s| && r == s[offset..offset + |r|]
    ensures offset + limit <= |s| ==> |r| == limit
    ensures offset >= |s| ==> r == []
  {
    if offset >= |s| then []
    else if offset + limit <= |s| then s[offset..offset + limit]
    else s[offset..]
  }

  /** Lexicographic order on character codes: the ordering `ORDER BY name`
      is modelled with (collation is not modelled). */
  predicate StringLe(a: string, b: string)
    decreases |a|
  {
    a == [] || (b != [] && (a[0] < b[0] || (a[0] == b[0] && StringLe(a[1..], b[1..]))))
  }

  lemma {:induction false} StringLeTotal(a: string, b: string)
    ensures StringLe(a, b) || StringLe(b, a)
    decreases |a|
  {
    if a != [] && b != [] && a[0] == b[0] {
      StringLeTotal(a[1..], b[1..]);
    }
  }

  lemma {:induction false} StringLeTransitive(a: string, b: string, c: string)
    requires StringLe(a, b) && StringLe(b, c)
    ensures StringLe(a, c)
    decreases |a|
  {
    if a != [] && a[0] == b[0] && b[0] == c[0] {
      StringLeTransitive(a[1..], b[1..], c[1..]);
    }
  }
}
