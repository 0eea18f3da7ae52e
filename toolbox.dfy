/**
 ToolBox::makeSalt (ToolBox.php, lines 24-90): draw characters from the pool
 until the salt has the requested length, keeping every draw in the default
 mode and, in strict mode, only draws that the `strstr` test finds unused.

 The random source `mt_rand(0, strlen($chars) - 1)` is replaced by `draws`, the
 sequence of values it returns, in order. The source keeps drawing for as long
 as it takes; the model stops with `OutOfDraws` when the given sequence is used
 up first, so every property below holds for every possible run of mt_rand.
 */
module ToolBox {
  import opened PhpStrings
  import opened Charsets

  /** What a call of makeSalt comes to. */
  datatype Outcome =
    | Salt(salt: string, drawsUsed: nat)  // the returned salt and how many values were drawn
    | CharsetTooSmall                     // the die() of the size check: strict, and the pool is shorter than the length
    | OutOfDraws(partial: string)         // the given draws ran out; the salt built so far

  /** Every draw is a value that `mt_rand(0, poolSize - 1)` can return. */
  predicate DrawsFit(draws: seq<int>, poolSize: nat)
  {
    forall k :: 0 <= k < |draws| ==> 0 <= draws[k] < poolSize
  }

  /** The characters `substr($chars, $draw, 1)` yields for the draws, in order. */
  function Picks(chars: string, draws: seq<int>): (picks: string)
    requires DrawsFit(draws, |chars|)
    ensures |picks| == |draws|
  {
    if draws == [] then ""
    else Picks(chars, draws[..|draws| - 1]) + [chars[draws[|draws| - 1]]]
  }

  /** The k-th pick is the pool character at the k-th draw. */
  lemma {:induction false} PicksAt(chars: string, draws: seq<int>)
    requires DrawsFit(draws, |chars|)
    ensures forall k :: 0 <= k < |draws| ==> Picks(chars, draws)[k] == chars[draws[k]]
  {
    if draws != [] {
      var prefix := draws[..|draws| - 1];
      PicksAt(chars, prefix);
      forall k | 0 <= k < |draws|
        ensures Picks(chars, draws)[k] == chars[draws[k]]
      {
        if k < |prefix| {
          assert Picks(chars, draws)[k] == Picks(chars, prefix)[k];
        }
      }
    }
  }

  /** Every pick is a character of the pool. */
  lemma PicksFromPool(chars: string, draws: seq<int>)
    requires DrawsFit(draws, |chars|)
    ensures forall c :: c in Picks(chars, draws) ==> c in chars
  {
    PicksAt(chars, draws);
    forall c | c in Picks(chars, draws)
      ensures c in chars
    {
      var k :| 0 <= k < |draws| && Picks(chars, draws)[k] == c;
      assert chars[draws[k]] == c;
    }
  }

  /** The test `strstr($salt, $char)` with PHP's truthiness: strict mode skips `c` when it holds. */
  predicate SeenBefore(salt: string, c: char)
    ensures SeenBefore(salt, c) ==> c in salt
    ensures c in salt && c != '0' ==> SeenBefore(salt, c)
  {
    StrstrTruthyExactly(salt, c);
    Truthy(Strstr(salt, c))
  }

  /**
   The strict-mode salt built from a sequence of picked characters: each pick
   is appended unless SeenBefore finds it in the salt so far.
   */
  function Kept(picks: string): (kept: string)
    ensures kept == [] <==> picks == []
  {
    if picks == [] then ""
    else
      var salt := Kept(picks[..|picks| - 1]);
      var c := picks[|picks| - 1];
      if SeenBefore(salt, c) then salt else salt + [c]
  }

  /**
   The only repetition in `s`, if any, is a '0' immediately followed by a
   second '0'; every other character occurs at most once.
   */
  predicate OnlyZeroRepeats(s: string)
  {
    forall i, j :: 0 <= i < j < |s| && s[i] == s[j] ==> s[i] == '0' && j == i + 1
  }

  /** Strict mode keeps exactly the characters that were picked, and never more characters than picks. */
  lemma {:induction false} KeptCharacters(picks: string)
    ensures forall x :: x in Kept(picks) <==> x in picks
    ensures |Kept(picks)| <= |picks|
  {
    if picks != [] {
      var prefix := picks[..|picks| - 1];
      var c := picks[|picks| - 1];
      KeptCharacters(prefix);
      StrstrTruthyExactly(Kept(prefix), c);
      assert picks == prefix + [c];
    }
  }

  /**
   Appending a character that the `strstr` test lets through keeps the only
   possible repetition a doubled '0'.
   */
  lemma AppendKeepsOnlyZeroRepeats(salt: string, c: char)
    requires OnlyZeroRepeats(salt)
    requires c !in salt || (c == '0' && EndsWithLoneZero(salt))
    ensures OnlyZeroRepeats(salt + [c])
  {
    var s := salt + [c];
    forall i, j | 0 <= i < j < |s| && s[i] == s[j]
      ensures s[i] == '0' && j == i + 1
    {
      if j == |salt| {
        assert s[i] == salt[i];
      } else {
        assert s[i] == salt[i] && s[j] == salt[j];
      }
    }
  }

  /**
   Strict mode never repeats a character, except that a '0' picked right
   after the salt's only '0' slips past the `strstr` test.
   */
  lemma {:induction false} KeptRepeatsOnlyZero(picks: string)
    ensures OnlyZeroRepeats(Kept(picks))
  {
    if picks != [] {
      var prefix := picks[..|picks| - 1];
      var c := picks[|picks| - 1];
      KeptRepeatsOnlyZero(prefix);
      StrstrTruthyExactly(Kept(prefix), c);
      if !SeenBefore(Kept(prefix), c) {
        AppendKeepsOnlyZeroRepeats(Kept(prefix), c);
      }
    }
  }

  /** Dropping the last character keeps the only repetition a doubled '0'. */
  lemma OnlyZeroRepeatsPrefix(t: string, c: char)
    requires OnlyZeroRepeats(t + [c])
    ensures OnlyZeroRepeats(t)
  {
    forall i, j | 0 <= i < j < |t| && t[i] == t[j]
      ensures t[i] == '0' && j == i + 1
    {
      assert (t + [c])[i] == t[i] && (t + [c])[j] == t[j];
    }
  }

  /** If the last character repeats an earlier one, it is the second '0' and nothing before it repeats. */
  lemma RepeatedLastIsZero(t: string, c: char)
    requires OnlyZeroRepeats(t + [c]) && c in t
    ensures c == '0' && Distinct(t)
  {
    var s := t + [c];
    var k :| 0 <= k < |t| && t[k] == c;
    assert s[k] == s[|t|];
    forall i, j | 0 <= i < j < |t|
      ensures t[i] != t[j]
    {
      assert s[i] == t[i] && s[j] == t[j];
    }
  }

  /** A string whose only repetition is a doubled '0' has at most one character more than distinct characters. */
  lemma {:induction false} OnlyZeroRepeatsCount(s: string)
    requires OnlyZeroRepeats(s)
    ensures |s| <= |CharsOf(s)| + (if '0' in s then 1 else 0)
  {
    if s != [] {
      var t := s[..|s| - 1];
      var c := s[|s| - 1];
      assert s == t + [c];
      assert CharsOf(s) == CharsOf(t) + {c};
      if c in t {
        RepeatedLastIsZero(t, c);
        DistinctCharsCount(t);
        assert CharsOf(s) == CharsOf(t) && '0' in s;
      } else {
        OnlyZeroRepeatsPrefix(t, c);
        OnlyZeroRepeatsCount(t);
      }
    }
  }

  /**
   Strict mode ends up with at least one character per distinct pick, and at
   most one more than that, the extra one being a second '0'.
   */
  lemma KeptCount(picks: string)
    ensures |CharsOf(picks)| <= |Kept(picks)|
    ensures |Kept(picks)| <= |CharsOf(picks)| + (if '0' in picks then 1 else 0)
  {
    KeptCharacters(picks);
    KeptRepeatsOnlyZero(picks);
    assert CharsOf(Kept(picks)) == CharsOf(picks);
    CharsOfBound(Kept(picks));
    OnlyZeroRepeatsCount(Kept(picks));
  }

  /**
   One more pick: strict mode drops it exactly when it already occurs in the
   salt, unless it is a '0' following the salt's only '0', which is appended.
   */
  lemma KeptStep(picks: string, c: char)
    ensures Kept(picks + [c]) ==
      if c in Kept(picks) && !(c == '0' && EndsWithLoneZero(Kept(picks))) then Kept(picks) else Kept(picks) + [c]
  {
    KeptAppend(picks, c);
    StrstrTruthyExactly(Kept(picks), c);
  }

  /** A repeated character other than '0' is rejected: two picks of it keep one. */
  lemma RepeatRejected(c: char)
    requires c != '0'
    ensures Kept([c] + [c]) == [c]
  {
    KeptStep([], c);
    StrstrTruthyExactly([], c);
    assert [] + [c] == [c];
    KeptStep([c], c);
    StrstrTruthyExactly([c], c);
  }

  /**
   A second '0' right after the first slips past the `strstr` test; a third does not.
   The digit is the parameter `z` rather than a literal string: the solver handles
   the lemma about `[z] + [z]` far more cheaply than one about the literal "00".
   */
  lemma ZeroSlipsThrough(z: char)
    requires z == '0'
    ensures Kept([z] + [z]) == [z] + [z]
    ensures Kept([z] + [z] + [z]) == [z] + [z]
  {
    KeptStep([], z);
    StrstrTruthyExactly([], z);
    assert [] + [z] == [z];
    KeptStep([z], z);
    StrstrTruthyExactly([z], z);
    KeptStep([z] + [z], z);
    StrstrTruthyExactly([z] + [z], z);
  }

  /** One more draw: the picks grow by that draw's character. */
  lemma PicksStep(chars: string, draws: seq<int>, used: nat)
    requires DrawsFit(draws, |chars|) && used < |draws|
    ensures Picks(chars, draws[..used + 1]) == Picks(chars, draws[..used]) + [chars[draws[used]]]
  {
    assert draws[..used + 1][..used] == draws[..used];
  }

  /** One more pick: the strict salt grows by it unless SeenBefore finds it in the salt so far. */
  lemma KeptAppend(picks: string, c: char)
    ensures Kept(picks + [c]) == if SeenBefore(Kept(picks), c) then Kept(picks) else Kept(picks) + [c]
  {
    assert (picks + [c])[..|picks|] == picks;
  }

  /**
   One more draw, in the terms of the draw loop: the picks grow by that draw's
   character, and the strict salt grows by it unless SeenBefore finds it.
   */
  lemma DrawStep(chars: string, draws: seq<int>, used: nat)
    requires DrawsFit(draws, |chars|) && used < |draws|
    ensures var picks, c := Picks(chars, draws[..used]), chars[draws[used]];
      Picks(chars, draws[..used + 1]) == picks + [c] &&
      Kept(picks + [c]) == if SeenBefore(Kept(picks), c) then Kept(picks) else Kept(picks) + [c]
  {
    PicksStep(chars, draws, used);
    KeptAppend(Picks(chars, draws[..used]), chars[draws[used]]);
  }

  /**
   What strict mode's salt says about the pool it was picked from: nothing but
   a doubled '0' repeats, and the pool holds enough distinct characters.
   */
  lemma StrictSaltFromPool(chars: string, picks: string)
    requires forall c :: c in picks ==> c in chars
    ensures OnlyZeroRepeats(Kept(picks))
    ensures |Kept(picks)| <= |CharsOf(chars)| + (if '0' in chars then 1 else 0)
  {
    KeptRepeatsOnlyZero(picks);
    KeptCount(picks);
    SubsetNoLarger(CharsOf(picks), CharsOf(chars));
  }

  /**
   Lines 62-89 of makeSalt over the pool `chars`, with mt_rand returning
   `draws`, in order: the strict-mode size check, then the draw loop.
   */
  method Generate(chars: string, length: int, strict: bool, draws: seq<int>) returns (r: Outcome)
    requires DrawsFit(draws, |chars|)
    // The die() check comes first and fails exactly when strict and the pool is shorter than length.
    ensures r.CharsetTooSmall? <==> strict && |chars| < length
    ensures length <= 0 ==> r == Salt("", 0)
    // A returned salt has the requested length and uses only pool characters.
    ensures r.Salt? ==> |r.salt| == (if length > 0 then length else 0) && r.drawsUsed <= |draws|
    ensures r.Salt? ==> forall c :: c in r.salt ==> c in chars
    // Default mode: exactly one draw per character, each kept as drawn.
    ensures r.Salt? && !strict ==> r.drawsUsed == |r.salt|
    ensures r.Salt? && !strict ==> forall k :: 0 <= k < |r.salt| ==> r.salt[k] == chars[draws[k]]
    // Strict mode: the draws are filtered by the strstr test, and drawing stops as soon as the salt is long enough.
    ensures r.Salt? && strict ==> r.salt == Kept(Picks(chars, draws[..r.drawsUsed]))
    ensures r.Salt? && strict && r.drawsUsed > 0 ==> |Kept(Picks(chars, draws[..r.drawsUsed - 1]))| < length
    ensures r.Salt? && strict ==> OnlyZeroRepeats(r.salt)
    // Strict mode only succeeds when the pool has enough distinct characters (one fewer if it holds '0').
    ensures r.Salt? && strict ==> length <= |CharsOf(chars)| + (if '0' in chars then 1 else 0)
    // Running out of draws leaves a salt that is too short.
    ensures r.OutOfDraws? ==> |r.partial| < length
    ensures r.OutOfDraws? ==> r.partial == if strict then Kept(Picks(chars, draws)) else Picks(chars, draws)
    // Enough draws always finish: length draws in default mode, length distinct picks in strict mode.
    ensures !strict && length <= |draws| ==> r.Salt?
    ensures strict && length <= |chars| && length <= |CharsOf(Picks(chars, draws))| ==> r.Salt?
  {
    if strict && |chars| < length {
      return CharsetTooSmall;
    }
    var salt := "";
    var i := 0;
    var used := 0;
    ghost var picks := "";
    // The source's loop runs while i < length; the model also stops when the draws run out.
    while i < length && used < |draws|
      invariant 0 <= used <= |draws| && picks == Picks(chars, draws[..used])
      invariant i == |salt| && (length > 0 ==> i <= length) && (length <= 0 ==> i == 0)
      invariant !strict ==> salt == picks
      invariant strict ==> salt == Kept(picks)
      invariant strict && used > 0 ==> |Kept(Picks(chars, draws[..used - 1]))| < length
    {
      var c := chars[draws[used]];
      DrawStep(chars, draws, used);
      picks := picks + [c];
      used := used + 1;
      if strict {
        if !SeenBefore(salt, c) {
          salt := salt + [c];
          i := i + 1;
        }
      } else {
        salt := salt + [c];
        i := i + 1;
      }
    }
    if i < length {
      assert draws[..used] == draws;
      if strict {
        KeptCount(picks);
      }
      return OutOfDraws(salt);
    }
    PicksFromPool(chars, draws[..used]);
    if !strict {
      PicksAt(chars, draws[..used]);
    }
    if strict {
      KeptCharacters(picks);
      StrictSaltFromPool(chars, picks);
    }
    return Salt(salt, used);
  }

  /**
   makeSalt($length, $strict, $charset) with mt_rand returning `draws`, in
   order: resolve the pool, then generate from it.
   */
  method MakeSalt(length: int, strict: bool, charset: Charset, draws: seq<int>) returns (r: Outcome)
    requires DrawsFit(draws, |Pool(charset)|)
    ensures r.CharsetTooSmall? <==> strict && |Pool(charset)| < length
    ensures length <= 0 ==> r == Salt("", 0)
    ensures r.Salt? ==> |r.salt| == (if length > 0 then length else 0)
    ensures r.Salt? ==> forall c :: c in r.salt ==> c in Pool(charset)
    ensures r.Salt? ==> r.drawsUsed <= |draws|
    ensures r.Salt? && !strict ==> r.drawsUsed == |r.salt|
    ensures r.Salt? && !strict ==> forall k :: 0 <= k < |r.salt| ==> r.salt[k] == Pool(charset)[draws[k]]
    ensures r.Salt? && strict ==> OnlyZeroRepeats(r.salt)
    ensures r.Salt? && strict ==> length <= |CharsOf(Pool(charset))| + (if '0' in Pool(charset) then 1 else 0)
    ensures r.Salt? && strict ==> r.salt == Kept(Picks(Pool(charset), draws[..r.drawsUsed]))
    ensures r.Salt? && strict && r.drawsUsed > 0 ==> |Kept(Picks(Pool(charset), draws[..r.drawsUsed - 1]))| < length
    ensures r.OutOfDraws? ==> |r.partial| < length
    ensures r.OutOfDraws? ==> r.partial == if strict then Kept(Picks(Pool(charset), draws)) else Picks(Pool(charset), draws)
    ensures !strict && length <= |draws| ==> r.Salt?
    ensures strict && length <= |Pool(charset)| && length <= |CharsOf(Picks(Pool(charset), draws))| ==> r.Salt?
    // For an option array or the default pool, passing the size check is enough:
    // strict mode finishes once the draws have covered the pool.
    ensures (strict && !charset.Literal? && length <= |Pool(charset)| &&
             CharsOf(Picks(Pool(charset), draws)) == CharsOf(Pool(charset))) ==> r.Salt?
  {
    var chars := Pool(charset);
    r := Generate(chars, length, strict, draws);
    if strict && !charset.Literal? {
      OptionsPoolDistinct(charset);
    }
  }

  /**
   In the run over the pool "01" in which mt_rand returns 0 twice, strict mode
   keeps both picks. As in ZeroSlipsThrough, the digit '0' is the parameter
   `zero` to keep string literals out of the proof.
   */
  lemma ZeroRunKeepsBoth(zero: char, pool: string, draws: seq<int>)
    requires zero == '0' && pool == [zero, '1'] && draws == [0, 0]
    ensures Kept(Picks(pool, draws)) == [zero] + [zero]
  {
    assert Picks(pool, draws) == [zero] + [zero];
    ZeroSlipsThrough(zero);
  }

  /** Fewer than two draws of that run keep fewer than two characters. */
  lemma ZeroRunPrefixShort(pool: string, draws: seq<int>, used: nat)
    requires |pool| == 2 && draws == [0, 0] && used < 2
    ensures |Kept(Picks(pool, draws[..used]))| < 2
  {
    KeptCharacters(Picks(pool, draws[..used]));
  }

  /** A strict salt of length 2 from that run uses both draws and is "00". */
  lemma ZeroRunSalt(zero: char, pool: string, draws: seq<int>, used: nat, salt: string)
    requires zero == '0' && pool == [zero, '1'] && draws == [0, 0]
    requires |salt| == 2 && used <= 2 && salt == Kept(Picks(pool, draws[..used]))
    ensures used == 2 && salt == [zero] + [zero]
  {
    if used < 2 {
      ZeroRunPrefixShort(pool, draws, used);
    } else {
      assert draws[..used] == draws;
      ZeroRunKeepsBoth(zero, pool, draws);
    }
  }

  /**
   A strict run over the pool "01" in which mt_rand returns 0 twice gives the
   salt "00": the doubled '0' is reachable, not just allowed by the contract.
   */
  method StrictRunRepeatsZero() returns (r: Outcome)
    ensures r.Salt? && r.drawsUsed == 2 && |r.salt| == 2 && r.salt[0] == '0' && r.salt[1] == '0'
  {
    var zero := '0';
    var pool, draws := [zero, '1'], [0, 0];
    r := Generate(pool, 2, true, draws);
    if r.Salt? {
      ZeroRunSalt(zero, pool, draws, r.drawsUsed, r.salt);
    } else {
      ZeroRunKeepsBoth(zero, pool, draws);
    }
  }

  /**
   An explicit string with a repeated character passes the size check, which
   counts characters rather than distinct ones, and then strict mode can never
   finish: "aab" with length 3 runs out of any draws it is given.
   */
  method RepeatedLiteralNeverFinishes(draws: seq<int>) returns (r: Outcome)
    requires DrawsFit(draws, 3)
    ensures r.OutOfDraws? && |r.partial| < 3
  {
    LiteralMayRepeat();
    r := MakeSalt(3, true, Literal("aab"), draws);
  }
}
