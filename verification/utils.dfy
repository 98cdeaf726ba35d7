/**
  The two helpers of the string analyser: the palindrome test and the
  SHA-256 fingerprint. The digest itself is a library call (Node's
  `crypto`), so it enters the model as a function parameter of type
  `Hasher`; being a function, it is deterministic by construction.
 */
module Utils {
  import opened Text

  /** `createSha256Hash`: some fixed map from a string to its digest. */
  type Hasher = string -> string

  predicate IsHexDigit(c: char) {
    '0' <= c <= '9' || 'a' <= c <= 'f'
  }

  /** The shape of `digest("hex")` for SHA-256: 64 lower-case hex digits. */
  predicate IsSha256Hex(d: string) {
    |d| == 64 && forall i :: 0 <= i < |d| ==> IsHexDigit(d[i])
  }

  /** A hasher that always answers with a well-formed hex digest. */
  ghost predicate ValidHasher(sha256: Hasher) {
    forall s :: IsSha256Hex(sha256(s))
  }

  /** Reference reading: the lower-cased text without its `' '` characters
      reads the same from both ends. */
  ghost predicate MirrorsWithoutSpaces(value: string) {
    var t := Remove(Lower(value), ' ');
    forall i :: 0 <= i < |t| ==> t[i] == t[|t| - 1 - i]
  }

  /** The string the palindrome test compares with its reverse: lower-cased,
      then split on `' '` and joined back with nothing in between, which
      deletes exactly the `' '` characters. */
  function Folded(value: string): (r: string)
    ensures r == Remove(Lower(value), ' ')
  {
    SplitJoinEmpty(Lower(value), ' ');
    Join(Split(Lower(value), ' '), [])
  }

  /** `isPalindrome`: holds exactly when the space-free lower-cased text
      mirrors itself. */
  predicate IsPalindrome(value: string): (r: bool)
    ensures r <==> MirrorsWithoutSpaces(value)
  {
    var folded := Folded(value);
    MirrorIsReverse(folded);
    folded == Reverse(folded)
  }

  /** Case does not matter. */
  lemma PalindromeIgnoresCase(value: string)
    ensures IsPalindrome(value) == IsPalindrome(Lower(value))
  {
    LowerIdempotent(value);
  }

  /** Inserting one `' '` anywhere leaves the verdict unchanged (and so, by
      repetition, does inserting or deleting any number of them). */
  lemma {:induction false} PalindromeIgnoresSpace(a: string, b: string)
    ensures IsPalindrome(a + " " + b) == IsPalindrome(a + b)
  {
    var la, lb := Lower(a), Lower(b);
    calc {
      Remove(Lower(a + " " + b), ' ');
      { LowerConcat(a + " ", b); LowerConcat(a, " "); assert Lower(" ") == " "; }
      Remove(la + " " + lb, ' ');
      { RemoveConcat(la + " ", lb, ' '); RemoveConcat(la, " ", ' '); assert Remove(" ", ' ') == []; }
      Remove(la, ' ') + Remove(lb, ' ');
      { RemoveConcat(la, lb, ' '); LowerConcat(a, b); }
      Remove(Lower(a + b), ' ');
    }
  }

  /** Reading the input backwards gives the same verdict. */
  lemma {:induction false} PalindromeReverse(value: string)
    ensures IsPalindrome(Reverse(value)) == IsPalindrome(value)
  {
    var t := Remove(Lower(value), ' ');
    LowerReverse(value);
    RemoveReverse(Lower(value), ' ');
    assert Folded(Reverse(value)) == Reverse(t);
    ReverseInvolution(t);
  }

  /** The empty string, strings of spaces only and single characters are
      palindromes. */
  lemma {:induction false} TrivialPalindromes(value: string)
    requires |value| <= 1 || forall i :: 0 <= i < |value| ==> value[i] == ' '
    ensures IsPalindrome(value)
  {
    var t := Remove(Lower(value), ' ');
    if |value| > 1 {
      AllSpacesRemoved(Lower(value));
    }
  }

  lemma {:induction false} AllSpacesRemoved(s: string)
    requires forall i :: 0 <= i < |s| ==> s[i] == ' '
    ensures Remove(s, ' ') == []
    decreases |s|
  {
    if |s| > 0 {
      AllSpacesRemoved(s[1..]);
    }
  }

  /** Only `' '` is stripped: a trailing tab breaks the palindrome, a
      trailing space does not. */
  lemma OnlySpaceIsStripped()
    ensures IsPalindrome("a ")
    ensures !IsPalindrome("a\t")
  {
    assert Lower("a ") == "a ";
    assert Lower("a\t") == "a\t";
    assert Remove("a ", ' ') == "a";
    assert Remove("a\t", ' ') == "a\t";
    assert Reverse("a\t")[0] == '\t';
  }
}
