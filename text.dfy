/**
 * The JavaScript string primitives the handlers rely on: `split` with a
 * one-character separator, `trim`, ASCII `toLowerCase` and the decimal
 * `toString` of a non-negative integer.
 */
module Text {

  /** Number of occurrences of `x` in `s`. */
  function Count<T(==)>(s: seq<T>, x: T): nat
  {
    if s == [] then 0 else (if s[0] == x then 1 else 0) + Count(s[1..], x)
  }

  /** A non-empty sequence is its front followed by its last element. */
  lemma FrontAndLast<T>(s: seq<T>)
    requires |s| >= 1
    ensures s[..|s| - 1] + [s[|s| - 1]] == s
  {
  }

  /** A value occurs exactly when its count is positive. */
  lemma {:induction false} CountPositive<T>(s: seq<T>, x: T)
    ensures Count(s, x) > 0 <==> x in s
  {
    if s != [] {
      CountPositive(s[1..], x);
      assert s == [s[0]] + s[1..];
    }
  }

  /** Glues the parts back together with one separator between neighbours. */
  function Join<T>(parts: seq<seq<T>>, sep: T): seq<T>
    requires |parts| >= 1
  {
    if |parts| == 1 then parts[0] else parts[0] + [sep] + Join(parts[1..], sep)
  }

  /** Concatenation regroups freely. */
  lemma Associative<T>(a: seq<T>, b: seq<T>, c: seq<T>)
    ensures a + (b + c) == (a + b) + c
  {
  }

  /** Two parts joined. */
  lemma JoinTwo<T>(x: seq<T>, y: seq<T>, sep: T)
    ensures Join([x, y], sep) == x + [sep] + y
  {
    assert [x, y][1..] == [y];
  }

  /** Three parts joined. */
  lemma JoinThree<T>(x: seq<T>, y: seq<T>, z: seq<T>, sep: T)
    ensures Join([x, y, z], sep) == x + [sep] + y + [sep] + z
  {
    assert [x, y, z][1..] == [y, z];
    JoinTwo(y, z, sep);
  }

  /**
   * `s.split(sep)`: the maximal separator-free runs of `s`, in order, one
   * more than there are separators (the empty string splits into one
   * empty part).
   */
  function Split<T(==)>(s: seq<T>, sep: T): (r: seq<seq<T>>)
    ensures |r| == Count(s, sep) + 1
    ensures forall k :: 0 <= k < |r| ==> sep !in r[k]
    ensures Join(r, sep) == s
  {
    if s == [] then [[]]
    else
      var rest := Split(s[1..], sep);
      assert s == [s[0]] + s[1..];
      if s[0] == sep then
        assert ([[]] + rest)[1..] == rest;
        [[]] + rest
      else
        var r := [[s[0]] + rest[0]] + rest[1..];
        JoinPrepend(s[0], rest, sep);
        assert forall k :: 1 <= k < |r| ==> r[k] == rest[k];
        r
  }

  /** A join of several parts is the first part, a separator and the join of the rest. */
  lemma JoinCons<T>(head: seq<T>, tail: seq<seq<T>>, sep: T)
    requires |tail| >= 1
    ensures Join([head] + tail, sep) == head + [sep] + Join(tail, sep)
  {
    assert ([head] + tail)[1..] == tail;
  }

  /** Extending the first part extends the join at the front. */
  lemma JoinPrepend<T>(x: T, parts: seq<seq<T>>, sep: T)
    requires |parts| >= 1
    ensures Join([[x] + parts[0]] + parts[1..], sep) == [x] + Join(parts, sep)
  {
    if |parts| > 1 {
      var p, tail := parts[0], parts[1..];
      JoinCons([x] + p, tail, sep);
      assert parts == [p] + tail;
      JoinCons(p, tail, sep);
      Associative([x], p + [sep], Join(tail, sep));
      Associative([x], p, [sep]);
    } else {
      assert [[x] + parts[0]] + parts[1..] == [[x] + parts[0]];
    }
  }

  /** Splitting a separator-free run followed by more text extends the first part. */
  lemma {:induction false} SplitAfterRun<T>(p: seq<T>, tail: seq<T>, sep: T)
    requires sep !in p
    ensures Split(p + tail, sep) == [p + Split(tail, sep)[0]] + Split(tail, sep)[1..]
  {
    if p != [] {
      SplitAfterRun(p[1..], tail, sep);
      assert (p + tail)[1..] == p[1..] + tail;
      assert [p[0]] + (p[1..] + Split(tail, sep)[0]) == p + Split(tail, sep)[0];
    } else {
      var st := Split(tail, sep);
      assert p + tail == tail;
      assert p + st[0] == st[0];
      assert st == [st[0]] + st[1..];
    }
  }

  /** `split` undoes `join` when no part contains the separator. */
  lemma {:induction false} SplitJoin<T>(parts: seq<seq<T>>, sep: T)
    requires |parts| >= 1
    requires forall k :: 0 <= k < |parts| ==> sep !in parts[k]
    ensures Split(Join(parts, sep), sep) == parts
  {
    var p := parts[0];
    if |parts| == 1 {
      SplitAfterRun(p, [], sep);
      assert p + [] == p;
      assert Split(p, sep) == [p + []];
    } else {
      var tail := Join(parts[1..], sep);
      SplitJoin(parts[1..], sep);
      assert Join(parts, sep) == p + ([sep] + tail);
      SplitAfterRun(p, [sep] + tail, sep);
      var st := Split([sep] + tail, sep);
      assert ([sep] + tail)[1..] == tail;
      assert st == [[]] + parts[1..];
      assert p + st[0] == p;
      assert st[1..] == parts[1..];
      assert parts == [p] + parts[1..];
    }
  }

  /** The last part is glued on after the others. */
  lemma {:induction false} JoinLast<T>(parts: seq<seq<T>>, sep: T)
    requires |parts| >= 2
    ensures Join(parts, sep) == Join(parts[..|parts| - 1], sep) + [sep] + parts[|parts| - 1]
  {
    if |parts| > 2 {
      JoinLast(parts[1..], sep);
      assert parts[1..][..|parts| - 2] == parts[..|parts| - 1][1..];
    }
  }

  /** A value in none of the parts, and not the separator, is not in the joined sequence. */
  lemma {:induction false} JoinAvoids<T>(parts: seq<seq<T>>, sep: T, x: T)
    requires |parts| >= 1 && x != sep
    requires forall k :: 0 <= k < |parts| ==> x !in parts[k]
    ensures x !in Join(parts, sep)
  {
    if |parts| > 1 {
      JoinAvoids(parts[1..], sep, x);
    }
  }

  /**
   * The characters JavaScript's `trim` removes: the ECMAScript WhiteSpace
   * and LineTerminator code points.
   */
  predicate IsSpace(c: char)
  {
    c == '\t' || c == '\n' || c == '\U{000B}' || c == '\U{000C}' || c == '\r' ||
    c == ' ' || c == '\U{00A0}' || c == '\U{1680}' ||
    ('\U{2000}' <= c <= '\U{200A}') ||
    c == '\U{2028}' || c == '\U{2029}' || c == '\U{202F}' || c == '\U{205F}' ||
    c == '\U{3000}' || c == '\U{FEFF}'
  }

  /** Neither the first nor the last character is white space. */
  predicate IsTrimmed(s: string)
  {
    s == [] || (!IsSpace(s[0]) && !IsSpace(s[|s| - 1]))
  }

  /** `s.trimStart()`: drops the leading white space and nothing else. */
  function TrimStart(s: string): (r: string)
    ensures |r| <= |s| && r == s[|s| - |r|..]
    ensures forall k :: 0 <= k < |s| - |r| ==> IsSpace(s[k])
    ensures r == [] || !IsSpace(r[0])
  {
    if s != [] && IsSpace(s[0]) then TrimStart(s[1..]) else s
  }

  /** `s.trimEnd()`: drops the trailing white space and nothing else. */
  function TrimEnd(s: string): (r: string)
    ensures |r| <= |s| && r == s[..|r|]
    ensures forall k :: |r| <= k < |s| ==> IsSpace(s[k])
    ensures r == [] || !IsSpace(r[|r| - 1])
  {
    if s != [] && IsSpace(s[|s| - 1]) then TrimEnd(s[..|s| - 1]) else s
  }

  /**
   * `s.trim()`: the result has no white space at either end, a trimmed
   * string is left alone, and only an all-white-space string trims to "".
   */
  function Trim(s: string): (r: string)
    ensures IsTrimmed(r)
    ensures IsTrimmed(s) ==> r == s
    ensures r == [] <==> forall k :: 0 <= k < |s| ==> IsSpace(s[k])
  {
    var t := TrimStart(s);
    var r := TrimEnd(t);
    assert r != [] ==> r[0] == t[0];
    assert IsTrimmed(s) && s != [] ==> t == s && r == s;
    assert r == [] ==> t == [];
    r
  }

  /** Every character of `s` is white space. */
  predicate AllSpace(s: string)
  {
    forall k :: 0 <= k < |s| ==> IsSpace(s[k])
  }

  /** How many characters `trimStart` drops from `s`. */
  function LeadingSpace(s: string): nat
  {
    |s| - |TrimStart(s)|
  }

  /**
   * `Trim` removes the leading and the trailing white space and nothing
   * else: the result is the middle of the input, and everything before and
   * after it is white space.
   */
  lemma TrimKeepsMiddle(s: string)
    ensures var r, a := Trim(s), LeadingSpace(s);
      a + |r| <= |s| && r == s[a..a + |r|] && AllSpace(s[..a]) && AllSpace(s[a + |r|..])
  {
    var t := TrimStart(s);
    var r := Trim(s);
    assert r == TrimEnd(t);
    assert LeadingSpace(s) == |s| - |t|;
    MiddleOfSuffix(s, t, r);
  }

  /** Trimming the end of a suffix of `s` leaves a slice of `s` with white space on both sides. */
  lemma MiddleOfSuffix(s: string, t: string, r: string)
    requires |t| <= |s| && t == s[|s| - |t|..]
    requires forall k :: 0 <= k < |s| - |t| ==> IsSpace(s[k])
    requires |r| <= |t| && r == t[..|r|]
    requires forall k :: |r| <= k < |t| ==> IsSpace(t[k])
    ensures var a := |s| - |t|;
      a + |r| <= |s| && r == s[a..a + |r|] && AllSpace(s[..a]) && AllSpace(s[a + |r|..])
  {
    var a := |s| - |t|;
    PrefixOfSuffix(s, a, |r|);
    var rest := s[a + |r|..];
    forall k | 0 <= k < |rest|
      ensures IsSpace(rest[k])
    {
      assert rest[k] == t[|r| + k];
    }
  }

  /** A prefix of a suffix is a slice. */
  lemma PrefixOfSuffix<T>(s: seq<T>, a: nat, n: nat)
    requires a + n <= |s|
    ensures s[a..][..n] == s[a..a + n]
  {
  }

  /** The first element of a join: that of the first part, or the separator after an empty first part. */
  lemma JoinFirst<T>(parts: seq<seq<T>>, sep: T)
    requires |parts| >= 2
    ensures Join(parts, sep)[0] == if parts[0] == [] then sep else parts[0][0]
  {
    assert Join(parts, sep) == parts[0] + ([sep] + Join(parts[1..], sep));
  }

  /** The last element of a join: that of the last part, or the separator before an empty last part. */
  lemma JoinFinal<T>(parts: seq<seq<T>>, sep: T)
    requires |parts| >= 2
    ensures var s, p := Join(parts, sep), parts[|parts| - 1];
      |s| >= 1 && s[|s| - 1] == if p == [] then sep else p[|p| - 1]
  {
    JoinLast(parts, sep);
    var p := parts[|parts| - 1];
    assert Join(parts, sep) == (Join(parts[..|parts| - 1], sep) + [sep]) + p;
  }

  /** Trimmed parts joined by a separator that is not white space give a trimmed string. */
  lemma TrimmedJoin(parts: seq<string>, sep: char)
    requires |parts| >= 1 && !IsSpace(sep)
    requires forall k :: 0 <= k < |parts| ==> IsTrimmed(parts[k])
    ensures IsTrimmed(Join(parts, sep))
  {
    if |parts| >= 2 {
      JoinFirst(parts, sep);
      JoinFinal(parts, sep);
      assert IsTrimmed(parts[0]) && IsTrimmed(parts[|parts| - 1]);
    }
  }

  /** `Trim` applied to every element. */
  function TrimAll(fs: seq<string>): (r: seq<string>)
    ensures |r| == |fs|
    ensures forall k :: 0 <= k < |fs| ==> r[k] == Trim(fs[k])
  {
    if fs == [] then [] else [Trim(fs[0])] + TrimAll(fs[1..])
  }

  /** `c.toLowerCase()` on the ASCII range. */
  function LowerChar(c: char): char
  {
    if 'A' <= c <= 'Z' then (c as int + 32) as char else c
  }

  /** `s.toLowerCase()` on the ASCII range: same length, letters folded. */
  function ToLowerAscii(s: string): (r: string)
    ensures |r| == |s|
    ensures forall k :: 0 <= k < |s| ==> r[k] == LowerChar(s[k])
  {
    if s == [] then [] else [LowerChar(s[0])] + ToLowerAscii(s[1..])
  }

  /** Lowering maps '.' to itself and nothing else to '.'. */
  lemma LowerKeepsDots(s: string)
    ensures '.' in ToLowerAscii(s) <==> '.' in s
  {
    var t := ToLowerAscii(s);
    if '.' in s {
      var k :| 0 <= k < |s| && s[k] == '.';
      assert t[k] == '.';
    }
    if '.' in t {
      var k :| 0 <= k < |t| && t[k] == '.';
      assert s[k] == '.';
    }
  }

  /** Lowering twice is lowering once. */
  lemma LowerIdempotent(s: string)
    ensures ToLowerAscii(ToLowerAscii(s)) == ToLowerAscii(s)
  {
  }

  predicate IsDigit(c: char)
  {
    '0' <= c <= '9'
  }

  /** The numeric value of a string of decimal digits. */
  function DecimalValue(s: string): nat
    requires forall k :: 0 <= k < |s| ==> IsDigit(s[k])
  {
    if s == [] then 0
    else
      var last := s[|s| - 1];
      assert IsDigit(last);
      10 * DecimalValue(s[..|s| - 1]) + (last as int - '0' as int)
  }

  /**
   * `n.toString()` for a non-negative integer: non-empty, digits only,
   * no leading zero.
   */
  function DecimalString(n: nat): (r: string)
    ensures |r| >= 1
    ensures forall k :: 0 <= k < |r| ==> IsDigit(r[k])
    ensures r[0] == '0' ==> n == 0
  {
    var d := [('0' as int + n % 10) as char];
    if n < 10 then d else DecimalString(n / 10) + d
  }

  /** Reading the digits back gives the number: `toString` loses nothing. */
  lemma {:induction false} DecimalRoundTrip(n: nat)
    ensures DecimalValue(DecimalString(n)) == n
  {
    var s := DecimalString(n);
    if n >= 10 {
      DecimalRoundTrip(n / 10);
      assert s[..|s| - 1] == DecimalString(n / 10);
    }
  }

  /** Different numbers give different decimal keys. */
  lemma DecimalStringInjective(m: nat, n: nat)
    requires DecimalString(m) == DecimalString(n)
    ensures m == n
  {
    DecimalRoundTrip(m);
    DecimalRoundTrip(n);
  }
}
