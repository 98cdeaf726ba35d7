/**
  The derived properties the controller attaches to a stored string:
  length, palindrome flag, distinct characters, word count, digest and the
  character-frequency map built by `reduce` over `value.split("")`.
 */
module Analysis {
  import opened Text
  import opened Utils

  /** The `properties` object of a stored entry. */
  datatype Properties = Properties(
    length: nat,
    isPalindrome: bool,
    uniqueCharacters: nat,
    wordCount: nat,
    sha256Hash: string,
    characterFrequencyMap: map<char, nat>)

  /** One step of the reducer: `acc[char] = (acc[char] || 0) + 1`. The
      character gains one occurrence; every other key keeps its count. */
  function Bump(acc: map<char, nat>, c: char): (r: map<char, nat>)
    ensures r.Keys == acc.Keys + {c}
    ensures r[c] == (if c in acc then acc[c] else 0) + 1
    ensures forall k :: k in acc && k != c ==> r[k] == acc[k]
  {
    acc[c := (if c in acc then acc[c] else 0) + 1]
  }

  /** The reducer folded over `s`, starting from `acc`: the keys already
      there plus the characters of `s`, each count raised by its number of
      occurrences in `s`. */
  function FrequencyFrom(acc: map<char, nat>, s: string): (r: map<char, nat>)
    ensures r.Keys == acc.Keys + Elements(s)
    ensures forall c :: c in r ==> r[c] == (if c in acc then acc[c] else 0) + Count(s, c)
    decreases |s|
  {
    if |s| == 0 then acc
    else
      assert Elements(s) == {s[0]} + Elements(s[1..]) by {
        forall c ensures c in s <==> c == s[0] || c in s[1..] {
          assert s == [s[0]] + s[1..];
        }
      }
      FrequencyFrom(Bump(acc, s[0]), s[1..])
  }

  /** `characterFrequencyMap`: one key per distinct character of `value`,
      mapped to its number of occurrences. */
  function CharacterFrequency(value: string): (r: map<char, nat>)
    ensures r.Keys == Elements(value)
    ensures forall c :: c in r ==> r[c] == Count(value, c)
  {
    var empty: map<char, nat> := map[];
    assert empty.Keys == {};
    FrequencyFrom(empty, value)
  }

  /** Sum of the counts `m` holds for the keys in `keys`. */
  ghost function SumOver(m: map<char, nat>, keys: set<char>): nat
    requires keys <= m.Keys
    decreases keys
  {
    if keys == {} then 0
    else
      var k :| k in keys;
      m[k] + SumOver(m, keys - {k})
  }

  /** Sum of the counts held in a frequency map. */
  ghost function Total(m: map<char, nat>): nat {
    SumOver(m, m.Keys)
  }

  /** `SumOver` does not depend on which key is taken first. */
  lemma {:induction false} SumOverWithout(m: map<char, nat>, keys: set<char>, k: char)
    requires keys <= m.Keys && k in keys
    ensures SumOver(m, keys) == m[k] + SumOver(m, keys - {k})
    decreases keys
  {
    var j :| j in keys && SumOver(m, keys) == m[j] + SumOver(m, keys - {j});
    if j != k {
      SumOverWithout(m, keys - {j}, k);
      SumOverWithout(m, keys - {k}, j);
      assert (keys - {j}) - {k} == (keys - {k}) - {j};
    }
  }

  /** Only the counts of the keys summed over matter. */
  lemma {:induction false} SumOverAgree(m: map<char, nat>, n: map<char, nat>, keys: set<char>)
    requires keys <= m.Keys && keys <= n.Keys
    requires forall c :: c in keys ==> m[c] == n[c]
    ensures SumOver(m, keys) == SumOver(n, keys)
    decreases keys
  {
    if keys != {} {
      var k :| k in keys && SumOver(m, keys) == m[k] + SumOver(m, keys - {k});
      SumOverWithout(n, keys, k);
      SumOverAgree(m, n, keys - {k});
    }
  }

  lemma {:induction false} TotalBump(m: map<char, nat>, c: char)
    ensures Total(Bump(m, c)) == Total(m) + 1
  {
    var b := Bump(m, c);
    SumOverWithout(b, b.Keys, c);
    var rest := b.Keys - {c};
    SumOverAgree(b, m, rest);
    if c in m {
      SumOverWithout(m, m.Keys, c);
      assert m.Keys - {c} == rest;
    } else {
      assert m.Keys == rest;
    }
  }

  /** Folding the reducer over `s` raises the total of the counts by
      `|s|`. */
  lemma {:induction false} FrequencyFromTotal(acc: map<char, nat>, s: string)
    ensures Total(FrequencyFrom(acc, s)) == Total(acc) + |s|
    decreases |s|
  {
    if |s| > 0 {
      FrequencyFromTotal(Bump(acc, s[0]), s[1..]);
      TotalBump(acc, s[0]);
    }
  }

  /** Independent description of correct properties for `value` with
      fingerprint `hash`. */
  ghost predicate Describes(p: Properties, value: string, hash: string) {
    && p.length == |value|
    && (p.isPalindrome <==> MirrorsWithoutSpaces(value))
    && p.uniqueCharacters == |Elements(value)|
    && p.wordCount == Count(value, ' ') + 1
    && p.sha256Hash == hash
    && p.characterFrequencyMap.Keys == Elements(value)
    && (forall c :: c in p.characterFrequencyMap ==> p.characterFrequencyMap[c] == Count(value, c))
  }

  /** The `properties` object built for `value`. Besides describing `value`,
      the map holds exactly `uniqueCharacters` keys whose counts add up to
      `length`, and the word count is never below one. */
  function ComputeProperties(value: string, hash: string): (p: Properties)
    ensures Describes(p, value, hash)
    ensures |p.characterFrequencyMap| == p.uniqueCharacters
    ensures Total(p.characterFrequencyMap) == p.length
    ensures p.wordCount >= 1
  {
    var freq := CharacterFrequency(value);
    var empty: map<char, nat> := map[];
    assert empty.Keys == {};
    FrequencyFromTotal(empty, value);
    assert Total(freq) == |value|;
    var words := Split(value, ' ');
    SplitLength(value, ' ');
    Properties(
      length := |value|,
      isPalindrome := IsPalindrome(value),
      uniqueCharacters := |Elements(value)|,
      wordCount := |words|,
      sha256Hash := hash,
      characterFrequencyMap := freq)
  }
}
