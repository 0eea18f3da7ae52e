/**
 The few pieces of PHP string semantics that makeSalt depends on, over Dafny
 strings (one `char` per byte of the PHP string): `strstr` with a one-character
 needle, PHP's truthiness of its result, and the character-set view of a
 string used to talk about repetitions.
 */
module PhpStrings {

  datatype Option<+T> = None | Some(value: T)

  /** The set of characters that occur in `s`. */
  function CharsOf(s: string): set<char>
  {
    set c | c in s
  }

  /** No character occurs twice in `s`. */
  predicate Distinct(s: string)
  {
    forall i, j :: 0 <= i < j < |s| ==> s[i] != s[j]
  }

  /** A string never has more distinct characters than characters. */
  lemma {:induction false} CharsOfBound(s: string)
    ensures |CharsOf(s)| <= |s|
  {
    if s != [] {
      var t := s[..|s| - 1];
      CharsOfBound(t);
      assert CharsOf(s) == CharsOf(t) + {s[|s| - 1]} by {
        assert s == t + [s[|s| - 1]];
      }
    }
  }

  /** A subset of a set of characters is no larger than the set. */
  lemma {:induction false} SubsetNoLarger(a: set<char>, b: set<char>)
    requires a <= b
    ensures |a| <= |b|
  {
    if a != {} {
      var x :| x in a;
      SubsetNoLarger(a - {x}, b - {x});
    }
  }

  /** A repetition-free string has exactly as many distinct characters as characters. */
  lemma {:induction false} DistinctCharsCount(s: string)
    requires Distinct(s)
    ensures |CharsOf(s)| == |s|
  {
    if s != [] {
      var t := s[..|s| - 1];
      var c := s[|s| - 1];
      DistinctCharsCount(t);
      assert s == t + [c];
      assert CharsOf(s) == CharsOf(t) + {c};
      assert c !in CharsOf(t);
    }
  }

  /** Joining two repetition-free strings with no character in common gives a repetition-free string. */
  lemma DistinctAppend(a: string, b: string)
    requires Distinct(a) && Distinct(b)
    requires forall c :: c in a ==> c !in b
    ensures Distinct(a + b)
  {
    forall i, j | 0 <= i < j < |a + b|
      ensures (a + b)[i] != (a + b)[j]
    {
      if i < |a| <= j {
        assert (a + b)[i] in a && (a + b)[j] in b;
      }
    }
  }

  /**
   PHP's `strstr($haystack, $needle)` for a one-character needle: the tail of
   `haystack` that starts at the FIRST occurrence of `needle`, or `None` (PHP's
   `false`) when `needle` does not occur.
   */
  function Strstr(haystack: string, needle: char): (r: Option<string>)
    ensures r.None? <==> needle !in haystack
  {
    if haystack == [] then None
    else if haystack[0] == needle then Some(haystack)
    else Strstr(haystack[1..], needle)
  }

  /**
   A found tail is a non-empty suffix of `haystack` that begins with `needle`,
   and `needle` does not occur before it: the occurrence is the first one.
   */
  lemma {:induction false} StrstrFindsFirst(haystack: string, needle: char)
    requires needle in haystack
    ensures var r := Strstr(haystack, needle).value;
      var start := |haystack| - |r|;
      0 < |r| <= |haystack| && r == haystack[start..] && r[0] == needle && needle !in haystack[..start]
  {
    if haystack[0] != needle {
      var rest := haystack[1..];
      assert needle in rest;
      StrstrFindsFirst(rest, needle);
      var r := Strstr(rest, needle).value;
      assert haystack[..|haystack| - |r|] == [haystack[0]] + rest[..|rest| - |r|];
    }
  }

  /** PHP's conversion of a `strstr` result to bool: `false`, `""` and `"0"` are falsy. */
  predicate Truthy(r: Option<string>)
    ensures Truthy(r) <==> r.Some? && (|r.value| >= 2 || (|r.value| == 1 && r.value[0] != '0'))
  {
    r.Some? && r.value != "" && r.value != "0"
  }

  /**
   `s` ends in a '0' and holds no other '0': exactly the case in which
   `strstr(s, '0')` returns the falsy string "0".
   */
  predicate EndsWithLoneZero(s: string)
  {
    |s| > 0 && s[|s| - 1] == '0' && '0' !in s[..|s| - 1]
  }

  /**
   The test `strstr($salt, $char)` is true exactly when `c` occurs in `salt`,
   except when `c` is '0' and the only '0' of `salt` is its last character.
   */
  lemma StrstrTruthyExactly(salt: string, c: char)
    ensures Truthy(Strstr(salt, c)) <==> c in salt && !(c == '0' && EndsWithLoneZero(salt))
  {
    var r := Strstr(salt, c);
    if r.Some? {
      StrstrFindsFirst(salt, c);
    }
    if r.Some? && c == '0' && EndsWithLoneZero(salt) {
      assert r.value == "0";
    }
    if r.Some? && r.value == "0" {
      assert salt[..|salt| - 1] == salt[..|salt| - |r.value|];
    }
  }
}
