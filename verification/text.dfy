/**
  Character-level string operations that the JavaScript code borrows from
  the language runtime: `trim`, `toLowerCase`, `split`, `join` and the
  `split("").reverse().join("")` reversal idiom. Strings are sequences of
  Unicode scalar values; the source's UTF-16 code units coincide with them
  as long as no surrogate pair occurs.
 */
module Text {

  /** Characters removed by `String.prototype.trim`: the ECMAScript
      WhiteSpace and LineTerminator code points. */
  predicate IsWhitespace(c: char) {
    || c == '\t' || c == '\n' || c == '\U{B}' || c == '\U{C}' || c == '\r'
    || c == ' ' || c == '\U{A0}' || c == '\U{1680}'
    || ('\U{2000}' <= c <= '\U{200A}')
    || c == '\U{2028}' || c == '\U{2029}' || c == '\U{202F}' || c == '\U{205F}'
    || c == '\U{3000}' || c == '\U{FEFF}'
  }

  predicate AllWhitespace(s: string) {
    forall i :: 0 <= i < |s| ==> IsWhitespace(s[i])
  }

  /** A string with no whitespace at either end. */
  predicate Trimmed(s: string) {
    |s| == 0 || (!IsWhitespace(s[0]) && !IsWhitespace(s[|s| - 1]))
  }

  /** Drops leading whitespace. */
  function TrimStart(s: string): (r: string)
    ensures |r| <= |s| && r == s[|s| - |r|..]
    ensures forall k :: 0 <= k < |s| - |r| ==> IsWhitespace(s[k])
    ensures |r| == 0 || !IsWhitespace(r[0])
    decreases |s|
  {
    if |s| > 0 && IsWhitespace(s[0]) then TrimStart(s[1..]) else s
  }

  /** Drops trailing whitespace. */
  function TrimEnd(s: string): (r: string)
    ensures |r| <= |s| && r == s[..|r|]
    ensures forall k :: |r| <= k < |s| ==> IsWhitespace(s[k])
    ensures |r| == 0 || !IsWhitespace(r[|r| - 1])
    decreases |s|
  {
    if |s| > 0 && IsWhitespace(s[|s| - 1]) then TrimEnd(s[..|s| - 1]) else s
  }

  /** `String.prototype.trim`: the result has no whitespace at either end
      and is no longer than the input. `TrimIsSlice` and `TrimOfPadded`
      say which slice of the input it is. */
  function Trim(s: string): (r: string)
    ensures Trimmed(r)
    ensures |r| <= |s|
  {
    var t := TrimStart(s);
    var r := TrimEnd(t);
    assert |r| == 0 || r[0] == t[0];
    r
  }

  /** The trimmed value is the input with only whitespace cut from its
      two ends. */
  lemma TrimIsSlice(s: string)
    ensures exists i, j :: 0 <= i <= j <= |s| && Trim(s) == s[i..j]
                           && AllWhitespace(s[..i]) && AllWhitespace(s[j..])
  {
    var i, j := TrimCuts(s);
  }

  /** The two cut points of `trim`. */
  lemma TrimCuts(s: string) returns (i: nat, j: nat)
    ensures i <= j <= |s| && Trim(s) == s[i..j]
    ensures AllWhitespace(s[..i]) && AllWhitespace(s[j..])
  {
    var t := TrimStart(s);
    var r := TrimEnd(t);
    i := |s| - |t|;
    j := i + |r|;
    assert Trim(s) == r;
    TrimStartDropsWhitespace(s);
    TrimEndDropsWhitespace(t);
    assert r == s[i..j] by {
      assert t == s[i..] && r == t[..|r|];
    }
    assert s[j..] == t[|r|..] by {
      assert t == s[i..];
    }
  }

  lemma TrimStartDropsWhitespace(s: string)
    ensures AllWhitespace(s[..|s| - |TrimStart(s)|])
  {
    var n := |s| - |TrimStart(s)|;
    forall k | 0 <= k < n
      ensures IsWhitespace(s[..n][k])
    {
      assert s[..n][k] == s[k];
    }
  }

  lemma TrimEndDropsWhitespace(t: string)
    ensures AllWhitespace(t[|TrimEnd(t)|..])
  {
    var n := |TrimEnd(t)|;
    forall k | 0 <= k < |t| - n
      ensures IsWhitespace(t[n..][k])
    {
      assert t[n..][k] == t[n + k];
    }
  }

  /** Leading whitespace ends exactly at the first non-whitespace
      character. */
  lemma TrimStartAt(s: string, i: nat)
    requires i <= |s|
    requires forall k :: 0 <= k < i ==> IsWhitespace(s[k])
    requires i == |s| || !IsWhitespace(s[i])
    ensures TrimStart(s) == s[i..]
  {
    var r := TrimStart(s);
    assert |r| > 0 ==> r[0] == s[|s| - |r|];
    assert |s| - |r| == i;
  }

  /** Trailing whitespace starts exactly after the last non-whitespace
      character. */
  lemma TrimEndAt(s: string, j: nat)
    requires j <= |s|
    requires forall k :: j <= k < |s| ==> IsWhitespace(s[k])
    requires j == 0 || !IsWhitespace(s[j - 1])
    ensures TrimEnd(s) == s[..j]
  {
    var r := TrimEnd(s);
    assert |r| > 0 ==> r[|r| - 1] == s[|r| - 1];
    assert |r| == j;
  }

  /** Reference characterisation of trim by position: if only whitespace
      lies outside `s[i..j]` and that slice has no whitespace at its ends,
      trimming `s` gives exactly that slice. */
  lemma TrimOfSlice(s: string, i: nat, j: nat)
    requires i <= j <= |s|
    requires forall k :: 0 <= k < i ==> IsWhitespace(s[k])
    requires forall k :: j <= k < |s| ==> IsWhitespace(s[k])
    requires Trimmed(s[i..j])
    ensures Trim(s) == s[i..j]
  {
    if i == j {
      assert forall k :: 0 <= k < |s| ==> IsWhitespace(s[k]);
      TrimStartAt(s, |s|);
      TrimEndAt([], 0);
    } else {
      assert !IsWhitespace(s[i]) by {
        assert s[i] == s[i..j][0];
      }
      assert !IsWhitespace(s[j - 1]) by {
        assert s[j - 1] == s[i..j][j - i - 1];
      }
      TrimStartAt(s, i);
      TrimEndOfSuffix(s, i, j);
    }
  }

  lemma TrimEndOfSuffix(s: string, i: nat, j: nat)
    requires i < j <= |s|
    requires forall k :: j <= k < |s| ==> IsWhitespace(s[k])
    requires !IsWhitespace(s[j - 1])
    ensures TrimEnd(s[i..]) == s[i..j]
  {
    var t := s[i..];
    assert forall k :: j - i <= k < |t| ==> t[k] == s[i + k];
    TrimEndAt(t, j - i);
    assert t[..j - i] == s[i..j];
  }

  /** Surrounding a trimmed string with whitespace on both sides and
      trimming gives the string back. */
  lemma TrimOfPadded(a: string, m: string, b: string)
    requires AllWhitespace(a) && AllWhitespace(b) && Trimmed(m)
    ensures Trim(a + m + b) == m
  {
    var s := a + m + b;
    assert s[|a|..|a| + |m|] == m;
    assert forall k :: 0 <= k < |a| ==> s[k] == a[k];
    assert forall k :: |a| + |m| <= k < |s| ==> s[k] == b[k - |a| - |m|];
    TrimOfSlice(s, |a|, |a| + |m|);
  }

  /** Trimming twice is the same as trimming once. */
  lemma TrimIdempotent(s: string)
    ensures Trim(Trim(s)) == Trim(s)
  {
    var m := Trim(s);
    assert m[0..|m|] == m;
    TrimOfSlice(m, 0, |m|);
  }

  /** ASCII model of `toLowerCase` on one character. */
  function LowerChar(c: char): char {
    if 'A' <= c <= 'Z' then (c as int + 32) as char else c
  }

  /** `String.prototype.toLowerCase`, character by character. */
  function Lower(s: string): (r: string)
    ensures |r| == |s|
    ensures forall i :: 0 <= i < |s| ==> r[i] == LowerChar(s[i])
  {
    seq(|s|, i requires 0 <= i < |s| => LowerChar(s[i]))
  }

  lemma LowerIdempotent(s: string)
    ensures Lower(Lower(s)) == Lower(s)
  {
  }

  lemma LowerConcat(a: string, b: string)
    ensures Lower(a + b) == Lower(a) + Lower(b)
  {
  }

  /** `s.split("").reverse().join("")`. */
  function Reverse(s: string): (r: string)
    ensures |r| == |s|
    ensures forall i :: 0 <= i < |s| ==> r[i] == s[|s| - 1 - i]
  {
    seq(|s|, i requires 0 <= i < |s| => s[|s| - 1 - i])
  }

  /** A string equals its reverse exactly when position `i` matches
      position `n-1-i` throughout. */
  lemma MirrorIsReverse(s: string)
    ensures s == Reverse(s) <==> forall i :: 0 <= i < |s| ==> s[i] == s[|s| - 1 - i]
  {
    if forall i :: 0 <= i < |s| ==> s[i] == s[|s| - 1 - i] {
      assert s == Reverse(s);
    }
  }

  lemma ReverseInvolution(s: string)
    ensures Reverse(Reverse(s)) == s
  {
  }

  lemma LowerReverse(s: string)
    ensures Lower(Reverse(s)) == Reverse(Lower(s))
  {
  }

  /** Number of occurrences of `c` in `s`. */
  function Count(s: string, c: char): nat
    decreases |s|
  {
    if |s| == 0 then 0 else (if s[0] == c then 1 else 0) + Count(s[1..], c)
  }

  /** The characters of `s` as a set (`new Set(s)` without surrogate pairs). */
  function Elements(s: string): set<char> {
    set c | c in s
  }

  /** `s` with every occurrence of `d` removed. */
  function Remove(s: string, d: char): (r: string)
    ensures d !in r
    ensures |r| == |s| - Count(s, d)
    decreases |s|
  {
    if |s| == 0 then []
    else if s[0] == d then Remove(s[1..], d)
    else [s[0]] + Remove(s[1..], d)
  }

  lemma {:induction false} RemoveConcat(a: string, b: string, d: char)
    ensures Remove(a + b, d) == Remove(a, d) + Remove(b, d)
    decreases |a|
  {
    if |a| > 0 {
      assert (a + b)[1..] == a[1..] + b;
      RemoveConcat(a[1..], b, d);
    } else {
      assert a + b == b;
    }
  }

  lemma ReverseConcat(a: string, b: string)
    ensures Reverse(a + b) == Reverse(b) + Reverse(a)
  {
  }

  lemma RemoveSingle(c: char, d: char)
    ensures Remove([c], d) == if c == d then [] else [c]
  {
    assert [c][1..] == [];
  }

  lemma {:induction false} RemoveReverse(s: string, d: char)
    ensures Remove(Reverse(s), d) == Reverse(Remove(s, d))
    decreases |s|
  {
    if |s| > 0 {
      var c, t := s[0], s[1..];
      assert s == [c] + t;
      calc {
        Remove(Reverse(s), d);
        { ReverseConcat([c], t); assert Reverse([c]) == [c]; }
        Remove(Reverse(t) + [c], d);
        { RemoveConcat(Reverse(t), [c], d); }
        Remove(Reverse(t), d) + Remove([c], d);
        { RemoveReverse(t, d); RemoveSingle(c, d); }
        Reverse(Remove(t, d)) + (if c == d then [] else [c]);
      }
      if c != d {
        ReverseConcat([c], Remove(t, d));
        assert Reverse([c]) == [c];
      }
    }
  }

  /** `parts.join(sep)`: a character occurs in the result exactly when it
      occurs in one of the parts, or in the separator placed between two
      parts. */
  function Join(parts: seq<string>, sep: string): (r: string)
    ensures forall c :: c in r <==>
      (exists i :: 0 <= i < |parts| && c in parts[i]) || (|parts| > 1 && c in sep)
    decreases |parts|
  {
    if |parts| == 0 then []
    else if |parts| == 1 then parts[0]
    else parts[0] + sep + Join(parts[1..], sep)
  }

  /** Joining after an empty first piece puts one separator in front. */
  lemma JoinEmptyFirst(rest: seq<string>, sep: string)
    requires |rest| >= 1
    ensures Join([[]] + rest, sep) == sep + Join(rest, sep)
  {
    assert ([[]] + rest)[1..] == rest;
  }

  /** Joining after extending the first piece by `c` puts `c` in front. */
  lemma JoinExtendFirst(c: char, rest: seq<string>, sep: string)
    requires |rest| >= 1
    ensures Join([[c] + rest[0]] + rest[1..], sep) == [c] + Join(rest, sep)
  {
    var parts := [[c] + rest[0]] + rest[1..];
    assert parts[1..] == rest[1..];
  }

  /** `s.split(d)` for a one-character separator: the pieces between the
      separators, at least one piece even for the empty string. */
  function Split(s: string, d: char): (parts: seq<string>)
    ensures |parts| >= 1
    ensures Join(parts, [d]) == s
    ensures forall i :: 0 <= i < |parts| ==> d !in parts[i]
    decreases |s|
  {
    if |s| == 0 then [[]]
    else
      var rest := Split(s[1..], d);
      if s[0] == d then
        JoinEmptyFirst(rest, [d]);
        [[]] + rest
      else
        JoinExtendFirst(s[0], rest, [d]);
        [[s[0]] + rest[0]] + rest[1..]
  }

  /** A string free of the separator splits into itself alone. */
  lemma {:induction false} SplitFree(s: string, d: char)
    requires d !in s
    ensures Split(s, d) == [s]
    decreases |s|
  {
    if |s| > 0 {
      SplitFree(s[1..], d);
      assert [s[0]] + s[1..] == s;
    }
  }

  lemma {:induction false} SplitAfterPiece(a: string, d: char, t: string)
    requires d !in a
    ensures Split(a + [d] + t, d) == [a] + Split(t, d)
    decreases |a|
  {
    if |a| == 0 {
      assert a + [d] + t == [d] + t;
      assert ([d] + t)[1..] == t;
    } else {
      assert (a + [d] + t)[1..] == a[1..] + [d] + t;
      SplitAfterPiece(a[1..], d, t);
      assert [a[0]] + a[1..] == a;
    }
  }

  /** Round trip: splitting the join of separator-free pieces gives the
      pieces back, so `Split` is the inverse of `Join`. */
  lemma {:induction false} SplitJoin(parts: seq<string>, d: char)
    requires |parts| >= 1
    requires forall i :: 0 <= i < |parts| ==> d !in parts[i]
    ensures Split(Join(parts, [d]), d) == parts
    decreases |parts|
  {
    if |parts| == 1 {
      SplitFree(parts[0], d);
    } else {
      SplitAfterPiece(parts[0], d, Join(parts[1..], [d]));
      SplitJoin(parts[1..], d);
      assert [parts[0]] + parts[1..] == parts;
    }
  }

  /** `s.split(d).length` is one more than the number of separators. */
  lemma {:induction false} SplitLength(s: string, d: char)
    ensures |Split(s, d)| == Count(s, d) + 1
    decreases |s|
  {
    if |s| > 0 {
      SplitLength(s[1..], d);
    }
  }

  /** `s.split(d).join("")` deletes every `d`. */
  lemma {:induction false} SplitJoinEmpty(s: string, d: char)
    ensures Join(Split(s, d), []) == Remove(s, d)
    decreases |s|
  {
    if |s| > 0 {
      var rest := Split(s[1..], d);
      SplitJoinEmpty(s[1..], d);
      if s[0] == d {
        JoinEmptyFirst(rest, []);
      } else {
        JoinExtendFirst(s[0], rest, []);
      }
    }
  }

}
