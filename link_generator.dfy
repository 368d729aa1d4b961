/**
 * Model of the review-link generator `LinkGeneratorFeature.GenerateLink`.
 *
 * The C# code seeds `System.Random` from the clock and consumes one draw per
 * call of `rand.Next(0, n)`. Here the generator is a finite sequence of draws,
 * read in the order in which the C# code evaluates its calls; a draw `d` taken
 * against the exclusive bound `n` yields `Next(d, n)`. Running out of draws is
 * the only way the model fails to produce a link, and it bounds the loop that
 * the C# code runs for as long as its thresholds are unmet.
 */
module LinkGeneratorFeature {
  import opened Wrappers

  /** The three entries of `randomChars`: no 'I' among the capitals, no 'l' among the small letters. */
  const Upper: string := "ABCDEFGHJKLMNOPQRSTUVWXYZ"
  const Lower: string := "abcdefghijkmnopqrstuvwxyz"
  const Digits: string := "0123456789"
  const RandomChars: seq<string> := [Upper, Lower, Digits]

  /** Every character the generator can emit. */
  const Alphabet: string := Upper + Lower + Digits

  /** The part of ASP.NET Identity's `PasswordOptions` that `GenerateLink` reads. */
  datatype PasswordOptions = PasswordOptions(
    requiredLength: int,
    requiredUniqueChars: int,
    requireDigit: bool,
    requireLowercase: bool,
    requireUppercase: bool)

  /** The options `GenerateLink` builds when it is called without any. */
  const DefaultOptions: PasswordOptions := PasswordOptions(6, 3, true, true, true)

  /** The options in force: the caller's, or six characters with three distinct and every class required. */
  function Effective(opts: Option<PasswordOptions>): (o: PasswordOptions)
    ensures opts.Some? ==> o == opts.value
    ensures opts.None? ==> o.requiredLength == 6 && o.requiredUniqueChars == 3
    ensures opts.None? ==> o.requireDigit && o.requireLowercase && o.requireUppercase
  {
    match opts
    case None => DefaultOptions
    case Some(o) => o
  }

  /** `rand.Next(0, maxValue)` answered by the draw `draw`: 0 when the range is empty, otherwise below `maxValue`. */
  function Next(draw: nat, maxValue: nat): (r: nat)
    ensures maxValue == 0 ==> r == 0
    ensures maxValue > 0 ==> r < maxValue
    ensures draw < maxValue ==> r == draw
  {
    if maxValue == 0 then 0 else draw % maxValue
  }

  /** `List<char>.Insert(index, c)`. */
  function Insert(s: string, index: nat, c: char): (r: string)
    requires index <= |s|
    ensures |r| == |s| + 1 && r[index] == c
    ensures r[..index] == s[..index] && r[index + 1..] == s[index..]
  {
    s[..index] + [c] + s[index..]
  }

  /** The string with the character at `index` taken out again. */
  function Remove(s: string, index: nat): string
    requires index < |s|
  {
    s[..index] + s[index + 1..]
  }

  /** The characters of `s` without repetition: `chars.Distinct()`. */
  function Distinct(s: string): set<char> {
    set c | c in s
  }

  /** The two thresholds the generation loop waits for. */
  predicate Satisfies(o: PasswordOptions, s: string) {
    |s| >= o.requiredLength && |Distinct(s)| >= o.requiredUniqueChars
  }

  /** The number of characters inserted before the loop, one per required class. */
  function RequiredCount(o: PasswordOptions): nat {
    (if o.requireUppercase then 1 else 0) + (if o.requireLowercase then 1 else 0) + (if o.requireDigit then 1 else 0)
  }

  /** The members of the three classes, told apart by their ranges (see `ClassesExactly`). */
  predicate IsUpper(c: char) {
    'A' <= c <= 'Z' && c != 'I'
  }

  predicate IsLower(c: char) {
    'a' <= c <= 'z' && c != 'l'
  }

  predicate IsDigit(c: char) {
    '0' <= c <= '9'
  }

  predicate IsLinkChar(c: char) {
    IsUpper(c) || IsLower(c) || IsDigit(c)
  }

  /** The class of the first character inserted into the empty list. */
  predicate InFirstClass(o: PasswordOptions, c: char) {
    if o.requireUppercase then IsUpper(c)
    else if o.requireLowercase then IsLower(c)
    else if o.requireDigit then IsDigit(c)
    else IsLinkChar(c)
  }

  predicate AllLinkChars(s: string) {
    forall k :: 0 <= k < |s| ==> IsLinkChar(s[k])
  }

  predicate HasUpper(s: string) {
    exists k :: 0 <= k < |s| && IsUpper(s[k])
  }

  predicate HasLower(s: string) {
    exists k :: 0 <= k < |s| && IsLower(s[k])
  }

  predicate HasDigit(s: string) {
    exists k :: 0 <= k < |s| && IsDigit(s[k])
  }

  function Max(a: int, b: int): int {
    if a < b then b else a
  }

  /** The draw at position `i`, or 0 past the end. */
  function Draw(draws: seq<nat>, i: nat): nat {
    if i < |draws| then draws[i] else 0
  }

  /**
   * The first character the required-class insertions put in, taken from the first
   * required class with the second draw; it ends up as the last one of the link.
   */
  function FirstRequired(o: PasswordOptions, draws: seq<nat>): char
    requires RequiredCount(o) > 0
  {
    if o.requireUppercase then Upper[Next(Draw(draws, 1), |Upper|)]
    else if o.requireLowercase then Lower[Next(Draw(draws, 1), |Lower|)]
    else Digits[Next(Draw(draws, 1), |Digits|)]
  }

  /** `randomChars[k][rand.Next(0, randomChars[k].Length)]` answered by the draw `draw`. */
  function ClassChar(k: nat, draw: nat): char
    requires k < |RandomChars|
  {
    RandomChars[k][Next(draw, |RandomChars[k]|)]
  }

  /**
   * The characters the required-class insertions draw for the flagged classes, in the
   * order capitals, small letters, digits: the second of each class's two draws picks
   * it (draws 1, 2u + 1 and 2(u + l) + 1, where u and l count the flagged capitals and
   * small letters).
   */
  function Drawn(draws: seq<nat>, u: bool, l: bool, d: bool): string {
    var nu := if u then 1 else 0;
    var nl := if l then 1 else 0;
    (if u then [ClassChar(0, Draw(draws, 1))] else [])
    + (if l then [ClassChar(1, Draw(draws, 2 * nu + 1))] else [])
    + (if d then [ClassChar(2, Draw(draws, 2 * (nu + nl) + 1))] else [])
  }

  /** The characters the three `if (opts.RequireX)` insertions draw, counted with repetition. */
  function DrawnRequired(o: PasswordOptions, draws: seq<nat>): multiset<char> {
    multiset(Drawn(draws, o.requireUppercase, o.requireLowercase, o.requireDigit))
  }

  lemma UpperExactly(c: char)
    ensures c in Upper <==> IsUpper(c)
  {
  }

  lemma LowerExactly(c: char)
    ensures c in Lower <==> IsLower(c)
  {
  }

  lemma DigitsExactly(c: char)
    ensures c in Digits <==> IsDigit(c)
  {
  }

  /** The range predicates describe exactly the strings of `randomChars`; neither 'I' nor 'l' is among them. */
  lemma ClassesExactly(c: char)
    ensures c in Upper <==> IsUpper(c)
    ensures c in Lower <==> IsLower(c)
    ensures c in Digits <==> IsDigit(c)
    ensures c in Alphabet <==> IsLinkChar(c)
    ensures 'I' !in Alphabet && 'l' !in Alphabet
  {
    UpperExactly(c);
    LowerExactly(c);
    DigitsExactly(c);
    UpperExactly('I');
    LowerExactly('I');
    DigitsExactly('I');
    UpperExactly('l');
    LowerExactly('l');
    DigitsExactly('l');
    assert c in Alphabet <==> c in Upper || c in Lower || c in Digits;
    assert 'I' in Alphabet <==> 'I' in Upper || 'I' in Lower || 'I' in Digits;
    assert 'l' in Alphabet <==> 'l' in Upper || 'l' in Lower || 'l' in Digits;
  }

  /** The character `randomChars[i][j]` belongs to class `i`. */
  lemma RandomCharAt(i: nat, j: nat)
    requires i < |RandomChars| && j < |RandomChars[i]|
    ensures i == 0 ==> IsUpper(RandomChars[i][j])
    ensures i == 1 ==> IsLower(RandomChars[i][j])
    ensures i == 2 ==> IsDigit(RandomChars[i][j])
  {
    if i == 0 {
      UpperExactly(Upper[j]);
    } else if i == 1 {
      LowerExactly(Lower[j]);
    } else {
      DigitsExactly(Digits[j]);
    }
  }

  /** Element by element, what `Insert` does. */
  lemma InsertAt(s: string, index: nat, c: char)
    requires index <= |s|
    ensures forall k :: 0 <= k < |s| + 1 ==>
      Insert(s, index, c)[k] == if k < index then s[k] else if k == index then c else s[k - 1]
  {
    var r := Insert(s, index, c);
    forall k | 0 <= k < |s| + 1
      ensures r[k] == if k < index then s[k] else if k == index then c else s[k - 1]
    {
      if k < index {
        assert r[..index][k] == s[..index][k];
      } else if k > index {
        assert r[index + 1..][k - index - 1] == s[index..][k - index - 1];
      }
    }
  }

  /** Taking out what `Insert` put in gives back the string. */
  lemma RemoveInsert(s: string, index: nat, c: char)
    requires index <= |s|
    ensures Remove(Insert(s, index, c), index) == s
  {
    var r := Insert(s, index, c);
    assert r[..index] + r[index + 1..] == s[..index] + s[index..];
    assert s == s[..index] + s[index..];
  }

  /** `Insert` adds exactly its character to the characters of the list, counted with repetition. */
  lemma MultisetInsert(s: string, index: nat, c: char)
    requires index <= |s|
    ensures multiset(Insert(s, index, c)) == multiset(s) + multiset{c}
  {
    assert s == s[..index] + s[index..];
  }

  /** `Insert` adds exactly its character to the distinct characters. */
  lemma DistinctInsert(s: string, index: nat, c: char)
    requires index <= |s|
    ensures Distinct(Insert(s, index, c)) == Distinct(s) + {c}
  {
    assert s == s[..index] + s[index..];
  }

  /**
   * A string without repeated characters whose characters all occur in `s` occurs
   * in `s` as a multiset: each of its characters is there at least once.
   */
  lemma {:induction false} DistinctMultiset(req: string, s: string)
    requires |Distinct(req)| == |req| && Distinct(req) <= Distinct(s)
    ensures multiset(req) <= multiset(s)
    decreases |req|
  {
    if |req| > 0 {
      var a, rest := req[0], req[1..];
      assert req == [a] + rest;
      assert Distinct(req) == {a} + Distinct(rest);
      DistinctAtMostLength(rest);
      assert a !in rest;
      assert Distinct(rest) == Distinct(req) - {a};
      DistinctMultiset(rest, s);
      assert multiset(req) == multiset{a} + multiset(rest);
      assert a in s;
      forall x ensures multiset(req)[x] <= multiset(s)[x] {
        if x == a {
          assert multiset(rest)[a] == 0;
        }
      }
    }
  }

  /** Inserting never takes a character away, so every class present stays present. */
  lemma InsertKeepsClasses(s: string, index: nat, c: char)
    requires index <= |s|
    ensures HasUpper(s) ==> HasUpper(Insert(s, index, c))
    ensures HasLower(s) ==> HasLower(Insert(s, index, c))
    ensures HasDigit(s) ==> HasDigit(Insert(s, index, c))
    ensures AllLinkChars(s) && IsLinkChar(c) ==> AllLinkChars(Insert(s, index, c))
    ensures 0 < |s| && index < |s| ==> Insert(s, index, c)[|s|] == s[|s| - 1]
  {
    var r := Insert(s, index, c);
    if HasUpper(s) {
      var k :| 0 <= k < |s| && IsUpper(s[k]);
      Shifted(s, index, c, k);
    }
    if HasLower(s) {
      var k :| 0 <= k < |s| && IsLower(s[k]);
      Shifted(s, index, c, k);
    }
    if HasDigit(s) {
      var k :| 0 <= k < |s| && IsDigit(s[k]);
      Shifted(s, index, c, k);
    }
    if AllLinkChars(s) && IsLinkChar(c) {
      forall k | 0 <= k < |r| ensures IsLinkChar(r[k]) {
        if k < index {
          Shifted(s, index, c, k);
        } else if k > index {
          Shifted(s, index, c, k - 1);
        }
      }
    }
    if 0 < |s| && index < |s| {
      Shifted(s, index, c, |s| - 1);
    }
  }

  /** Where the character at `k` ends up after an insertion at `index`. */
  lemma Shifted(s: string, index: nat, c: char, k: nat)
    requires index <= |s| && k < |s|
    ensures Insert(s, index, c)[if k < index then k else k + 1] == s[k]
  {
    var r := Insert(s, index, c);
    if k < index {
      assert r[..index][k] == s[..index][k];
    } else {
      assert r[index + 1..][k - index] == s[index..][k - index];
    }
  }

  lemma SubsetCard(a: set<char>, b: set<char>)
    requires a <= b
    ensures |a| <= |b|
  {
    assert b == a + (b - a);
  }

  lemma {:induction false} DistinctAtMostLength(s: string)
    ensures |Distinct(s)| <= |s|
  {
    if s != [] {
      DistinctAtMostLength(s[1..]);
      assert Distinct(s) == Distinct(s[1..]) + {s[0]} by {
        assert s == [s[0]] + s[1..];
      }
    }
  }

  /** A string over the alphabet has at most as many distinct characters as the alphabet has letters. */
  lemma DistinctBound(s: string)
    requires AllLinkChars(s)
    ensures |Distinct(s)| <= |Alphabet|
  {
    forall c | c in Distinct(s) ensures c in Distinct(Alphabet) {
      ClassesExactly(c);
    }
    SubsetCard(Distinct(s), Distinct(Alphabet));
    DistinctAtMostLength(Alphabet);
  }

  /** The characters of one of the flagged classes. */
  predicate Flagged(c: char, u: bool, l: bool, d: bool) {
    (u && IsUpper(c)) || (l && IsLower(c)) || (d && IsDigit(c))
  }

  /**
   * The list after the required-class insertions for the flags `u`, `l`, `d`: one
   * character per flagged class and none of another, all distinct, the first one last.
   */
  ghost predicate RequiredSoFar(s: string, u: bool, l: bool, d: bool) {
    var o := PasswordOptions(0, 0, d, l, u);
    && |s| == |Distinct(s)| == RequiredCount(o)
    && (forall k :: 0 <= k < |s| ==> Flagged(s[k], u, l, d))
    && (u ==> HasUpper(s))
    && (l ==> HasLower(s))
    && (d ==> HasDigit(s))
    && (|s| > 0 ==> InFirstClass(o, s[|s| - 1]))
  }

  /** The capital goes into the empty list. */
  lemma AddUpper(c: char)
    requires IsUpper(c)
    ensures RequiredSoFar(Insert([], 0, c), true, false, false)
  {
    var r := Insert([], 0, c);
    assert r == [c];
    assert Distinct(r) == {c};
    assert IsUpper(r[0]);
  }

  /** The small letter goes in below `Count`: still pairwise distinct, the first character still last. */
  lemma AddLower(s: string, u: bool, index: nat, c: char)
    requires RequiredSoFar(s, u, false, false) && IsLower(c)
    requires index <= |s| && (|s| > 0 ==> index < |s|)
    ensures RequiredSoFar(Insert(s, index, c), u, true, false)
  {
    assert c !in Distinct(s) by {
      forall k | 0 <= k < |s| ensures s[k] != c {
        assert Flagged(s[k], u, false, false);
      }
    }
    var r := Insert(s, index, c);
    DistinctInsert(s, index, c);
    assert |Distinct(r)| == |Distinct(s)| + 1;
    InsertAt(s, index, c);
    InsertKeepsClasses(s, index, c);
    assert IsLower(r[index]);
    assert forall k :: 0 <= k < |r| ==> Flagged(r[k], u, true, false);
    assert |r| == |Distinct(r)| == RequiredCount(PasswordOptions(0, 0, false, true, u));
    assert u ==> HasUpper(r);
    assert HasLower(r);
    assert |r| > 0 ==> InFirstClass(PasswordOptions(0, 0, false, true, u), r[|r| - 1]);
  }

  /** The digit goes in below `Count`, likewise. */
  lemma AddDigit(s: string, u: bool, l: bool, index: nat, c: char)
    requires RequiredSoFar(s, u, l, false) && IsDigit(c)
    requires index <= |s| && (|s| > 0 ==> index < |s|)
    ensures RequiredSoFar(Insert(s, index, c), u, l, true)
  {
    assert c !in Distinct(s) by {
      forall k | 0 <= k < |s| ensures s[k] != c {
        assert Flagged(s[k], u, l, false);
      }
    }
    var r := Insert(s, index, c);
    DistinctInsert(s, index, c);
    assert |Distinct(r)| == |Distinct(s)| + 1;
    InsertAt(s, index, c);
    InsertKeepsClasses(s, index, c);
    assert IsDigit(r[index]);
    assert forall k :: 0 <= k < |r| ==> Flagged(r[k], u, l, true);
    assert |r| == |Distinct(r)| == RequiredCount(PasswordOptions(0, 0, true, l, u));
    assert u ==> HasUpper(r);
    assert l ==> HasLower(r);
    assert HasDigit(r);
    assert |r| > 0 ==> InFirstClass(PasswordOptions(0, 0, true, l, u), r[|r| - 1]);
  }

  /** The character an `if (opts.RequireX)` block picks with draw `i` is the one `ClassChar` names. */
  lemma CharStep(draws: seq<nat>, i: nat, k: nat, j: nat)
    requires i < |draws| && k < |RandomChars| && j == Next(draws[i], |RandomChars[k]|)
    ensures RandomChars[k][j] == ClassChar(k, Draw(draws, i))
  {
  }

  /** Inserting a character into `s` and appending it to `t` keep their distinct characters equal. */
  lemma DrawStep(s: string, t: string, index: nat, c: char)
    requires Distinct(s) == Distinct(t) && index <= |s|
    ensures Distinct(Insert(s, index, c)) == Distinct(t + [c])
  {
    DistinctInsert(s, index, c);
    assert Distinct(t + [c]) == Distinct(t) + {c};
  }

  /** Two strings without repeated characters and with the same characters are equal as multisets. */
  lemma DistinctSame(s: string, t: string)
    requires |s| == |Distinct(s)| && |t| == |Distinct(t)| && Distinct(s) == Distinct(t)
    ensures multiset(s) == multiset(t)
  {
    DistinctMultiset(s, t);
    DistinctMultiset(t, s);
  }

  /**
   * The state after the first `stage` of the three `if (opts.RequireX)` blocks: the list
   * `s` holds one character per class flagged so far, `t` the characters drawn for them,
   * in the order drawn, and `pos` draws are used, two per block taken.
   */
  ghost predicate RequiredState(o: PasswordOptions, draws: seq<nat>, stage: nat, s: string, t: string, pos: nat) {
    var u := o.requireUppercase && stage >= 1;
    var l := o.requireLowercase && stage >= 2;
    var d := o.requireDigit && stage >= 3;
    && RequiredSoFar(s, u, l, d)
    && pos == 2 * |s| && |t| == |s|
    && t == Drawn(draws, u, l, d) && Distinct(s) == Distinct(t)
    && (|s| > 0 ==> RequiredCount(o) > 0 && s[|s| - 1] == FirstRequired(o, draws))
  }

  /** A block whose class is not required changes nothing but the stage. */
  lemma RequiredSkip(o: PasswordOptions, draws: seq<nat>, stage: nat, s: string, t: string, pos: nat)
    requires RequiredState(o, draws, stage, s, t, pos) && stage < 3
    requires stage == 0 ==> !o.requireUppercase
    requires stage == 1 ==> !o.requireLowercase
    requires stage == 2 ==> !o.requireDigit
    ensures RequiredState(o, draws, stage + 1, s, t, pos)
  {
  }

  /** Lines 27-29: the capital drawn with the second draw goes into the empty list. */
  lemma RequiredUpper(o: PasswordOptions, draws: seq<nat>, s: string, t: string, pos: nat, index: nat, j: nat)
    requires RequiredState(o, draws, 0, s, t, pos) && o.requireUppercase && pos + 2 <= |draws|
    requires index == Next(draws[pos], |s|) && j == Next(draws[pos + 1], |RandomChars[0]|)
    ensures RequiredState(o, draws, 1, Insert(s, index, RandomChars[0][j]), t + [RandomChars[0][j]], pos + 2)
  {
    var c := RandomChars[0][j];
    RandomCharAt(0, j);
    CharStep(draws, pos + 1, 0, j);
    DrawStep(s, t, index, c);
    AddUpper(c);
    assert Insert(s, index, c) == [c];
  }

  /** Lines 31-33: the small letter drawn next goes in below `Count`. */
  lemma RequiredLower(o: PasswordOptions, draws: seq<nat>, s: string, t: string, pos: nat, index: nat, j: nat)
    requires RequiredState(o, draws, 1, s, t, pos) && o.requireLowercase && pos + 2 <= |draws|
    requires index == Next(draws[pos], |s|) && j == Next(draws[pos + 1], |RandomChars[1]|)
    ensures RequiredState(o, draws, 2, Insert(s, index, RandomChars[1][j]), t + [RandomChars[1][j]], pos + 2)
  {
    var c := RandomChars[1][j];
    var u := o.requireUppercase;
    RandomCharAt(1, j);
    CharStep(draws, pos + 1, 1, j);
    DrawStep(s, t, index, c);
    AddLower(s, u, index, c);
    InsertKeepsClasses(s, index, c);
    DrawnLower(draws, u);
    assert t + [c] == Drawn(draws, u, true, false);
    LastStep(o, draws, s, index, c);
  }

  /** Lines 35-37: the digit drawn next goes in below `Count`. */
  lemma RequiredDigit(o: PasswordOptions, draws: seq<nat>, s: string, t: string, pos: nat, index: nat, j: nat)
    requires RequiredState(o, draws, 2, s, t, pos) && o.requireDigit && pos + 2 <= |draws|
    requires index == Next(draws[pos], |s|) && j == Next(draws[pos + 1], |RandomChars[2]|)
    ensures RequiredState(o, draws, 3, Insert(s, index, RandomChars[2][j]), t + [RandomChars[2][j]], pos + 2)
  {
    var c := RandomChars[2][j];
    var u, l := o.requireUppercase, o.requireLowercase;
    RandomCharAt(2, j);
    CharStep(draws, pos + 1, 2, j);
    DrawStep(s, t, index, c);
    AddDigit(s, u, l, index, c);
    InsertKeepsClasses(s, index, c);
    DrawnDigit(draws, u, l);
    assert t + [c] == Drawn(draws, u, l, true);
    LastStep(o, draws, s, index, c);
  }

  /** Drawing a small letter after the capital, if any: the third draw when there was one, else the first. */
  lemma DrawnLower(draws: seq<nat>, u: bool)
    ensures Drawn(draws, u, true, false)
      == Drawn(draws, u, false, false) + [ClassChar(1, Draw(draws, 2 * (if u then 1 else 0) + 1))]
  {
  }

  /** Drawing a digit after the letters: two draws per letter before it. */
  lemma DrawnDigit(draws: seq<nat>, u: bool, l: bool)
    ensures Drawn(draws, u, l, true)
      == Drawn(draws, u, l, false) + [ClassChar(2, Draw(draws, 2 * ((if u then 1 else 0) + (if l then 1 else 0)) + 1))]
  {
  }

  /**
   * An insertion below `Count` keeps the last character; into the empty string, the
   * character inserted is the last one, and it is the first required one.
   */
  lemma LastStep(o: PasswordOptions, draws: seq<nat>, s: string, index: nat, c: char)
    requires index <= |s| && (|s| > 0 ==> index < |s|)
    requires |s| > 0 ==> RequiredCount(o) > 0 && s[|s| - 1] == FirstRequired(o, draws)
    requires |s| == 0 ==> RequiredCount(o) > 0 && c == FirstRequired(o, draws)
    ensures var r := Insert(s, index, c); RequiredCount(o) > 0 && r[|r| - 1] == FirstRequired(o, draws)
  {
    if |s| == 0 {
      assert Insert(s, index, c) == [c];
    } else {
      InsertKeepsClasses(s, index, c);
    }
  }

  /** The last character is the first required one: of the first required class, drawn with the second draw. */
  predicate EndsInFirstRequired(o: PasswordOptions, draws: seq<nat>, s: string) {
    |s| > 0 ==> RequiredCount(o) > 0 && InFirstClass(o, s[|s| - 1]) && s[|s| - 1] == FirstRequired(o, draws)
  }

  /**
   * What the three blocks leave behind, in the terms of the options: one character per
   * required class, pairwise distinct, exactly the characters drawn for them, and the
   * first one inserted last.
   */
  lemma RequiredDone(o: PasswordOptions, draws: seq<nat>, s: string, t: string, pos: nat)
    requires RequiredState(o, draws, 3, s, t, pos)
    ensures |s| == |Distinct(s)| == RequiredCount(o)
    ensures AllLinkChars(s)
    ensures (o.requireUppercase ==> HasUpper(s)) && (o.requireLowercase ==> HasLower(s)) && (o.requireDigit ==> HasDigit(s))
    ensures EndsInFirstRequired(o, draws, s)
    ensures multiset(s) == DrawnRequired(o, draws)
  {
    var u, l, d := o.requireUppercase, o.requireLowercase, o.requireDigit;
    assert RequiredSoFar(s, u, l, d);
    assert o == PasswordOptions(o.requiredLength, o.requiredUniqueChars, d, l, u);
    forall k | 0 <= k < |s| ensures IsLinkChar(s[k]) {
      assert Flagged(s[k], u, l, d);
    }
    DistinctSame(s, t);
  }

  /**
   * The three `if (opts.RequireX)` insertions: for each required class in the order
   * capitals, small letters, digits, one index draw and one character draw.
   * Returns None only when `draws` runs out first.
   */
  method InsertRequired(o: PasswordOptions, draws: seq<nat>) returns (chars: Option<string>)
    ensures chars.None? <==> |draws| < 2 * RequiredCount(o)
    ensures chars.Some? ==> |chars.value| == |Distinct(chars.value)| == RequiredCount(o)
    ensures chars.Some? ==> AllLinkChars(chars.value)
    ensures chars.Some? ==>
      && (o.requireUppercase ==> HasUpper(chars.value))
      && (o.requireLowercase ==> HasLower(chars.value))
      && (o.requireDigit ==> HasDigit(chars.value))
    // every later insertion is below `Count`, so the first character inserted ends up last
    ensures chars.Some? ==> EndsInFirstRequired(o, draws, chars.value)
    // exactly the characters drawn for the required classes, nothing else
    ensures chars.Some? ==> multiset(chars.value) == DrawnRequired(o, draws)
  {
    var s: string := [];
    var pos := 0;
    // the characters drawn so far, in the order drawn
    ghost var t: string := [];
    assert RequiredState(o, draws, 0, s, t, pos);

    if o.requireUppercase {
      if |draws| < pos + 2 {
        return None;
      }
      var index := Next(draws[pos], |s|);
      var j := Next(draws[pos + 1], |RandomChars[0]|);
      var c := RandomChars[0][j];
      RequiredUpper(o, draws, s, t, pos, index, j);
      s, t := Insert(s, index, c), t + [c];
      pos := pos + 2;
    } else {
      RequiredSkip(o, draws, 0, s, t, pos);
    }

    if o.requireLowercase {
      if |draws| < pos + 2 {
        return None;
      }
      var index := Next(draws[pos], |s|);
      var j := Next(draws[pos + 1], |RandomChars[1]|);
      var c := RandomChars[1][j];
      RequiredLower(o, draws, s, t, pos, index, j);
      s, t := Insert(s, index, c), t + [c];
      pos := pos + 2;
    } else {
      RequiredSkip(o, draws, 1, s, t, pos);
    }

    if o.requireDigit {
      if |draws| < pos + 2 {
        return None;
      }
      var index := Next(draws[pos], |s|);
      var j := Next(draws[pos + 1], |RandomChars[2]|);
      var c := RandomChars[2][j];
      RequiredDigit(o, draws, s, t, pos, index, j);
      s, t := Insert(s, index, c), t + [c];
      pos := pos + 2;
    } else {
      RequiredSkip(o, draws, 2, s, t, pos);
    }
    RequiredDone(o, draws, s, t, pos);
    chars := Some(s);
  }

  /** What every pass of the generation loop keeps: the alphabet, the required classes, the first character last. */
  predicate Classes(o: PasswordOptions, s: string) {
    && AllLinkChars(s)
    && (o.requireUppercase ==> HasUpper(s))
    && (o.requireLowercase ==> HasLower(s))
    && (o.requireDigit ==> HasDigit(s))
    && (|s| > 0 ==> InFirstClass(o, s[|s| - 1]))
  }

  /** One insertion of a random character below `Count` keeps `Classes` and the last character itself. */
  lemma ClassesStep(o: PasswordOptions, s: string, index: nat, c: char)
    requires Classes(o, s) && IsLinkChar(c)
    requires |s| == 0 ==> RequiredCount(o) == 0
    requires index <= |s| && (|s| > 0 ==> index < |s|)
    ensures Classes(o, Insert(s, index, c))
    ensures |s| > 0 ==> Insert(s, index, c)[|s|] == s[|s| - 1]
  {
    InsertKeepsClasses(s, index, c);
    var r := Insert(s, index, c);
    if |s| == 0 {
      assert r == [c];
    } else {
      assert r[|r| - 1] == s[|s| - 1];
    }
  }

  /** What a link generated with the default options looks like: six characters, ending in a capital, all three classes. */
  predicate DefaultShape(s: string) {
    && |s| == 6
    && |Distinct(s)| >= 3
    && AllLinkChars(s)
    && IsUpper(s[5])
    && HasLower(s)
    && HasDigit(s)
  }

  /** Six characters meeting the default options have the default shape. */
  lemma DefaultShapeOf(s: string)
    requires Classes(DefaultOptions, s) && Satisfies(DefaultOptions, s) && |s| == 6
    ensures DefaultShape(s)
  {
    assert InFirstClass(DefaultOptions, s[5]);
  }

  /** A string of link characters is a string over `Alphabet`, and conversely. */
  lemma LinkCharsInAlphabet(s: string)
    ensures AllLinkChars(s) <==> forall k :: 0 <= k < |s| ==> s[k] in Alphabet
  {
    forall k | 0 <= k < |s| ensures IsLinkChar(s[k]) <==> s[k] in Alphabet {
      ClassesExactly(s[k]);
    }
  }

  /** The characters easily confused with '1' are never emitted. */
  lemma NoConfusables(s: string)
    requires AllLinkChars(s)
    ensures 'I' !in s && 'l' !in s
  {
  }

  /**
   * The facts about the characters a pass of the generation loop keeps; `prev` is
   * the list before the last insertion, made at `prevIndex`.
   */
  ghost predicate Progress(o: PasswordOptions, req: string, chars: string, prev: string, prevIndex: nat) {
    && |chars| >= |req|
    && Classes(o, chars)
    && Distinct(req) <= Distinct(chars)
    && (|chars| == |req| ==> chars == req)
    && (Satisfies(o, req) ==> |chars| == |req|)
    && (|chars| > |req| ==> prevIndex < |chars| && Remove(chars, prevIndex) == prev && !Satisfies(o, prev))
    // the list before the last insertion already held every required character
    && (|chars| > |req| ==> Distinct(req) <= Distinct(prev))
    // an insertion into a non-empty list is below its `Count`
    && (|chars| > |req| && |prev| > 0 ==> prevIndex < |prev|)
    && (|req| >= o.requiredUniqueChars ==> |chars| <= Max(|req|, o.requiredLength))
  }

  /** What the required-class insertions hand to the loop. */
  predicate Required(o: PasswordOptions, req: string) {
    |req| == |Distinct(req)| == RequiredCount(o) && Classes(o, req)
  }

  /** One pass of the loop, taken while a threshold is unmet, keeps `Progress`. */
  lemma ProgressStep(o: PasswordOptions, req: string, chars: string, prev: string, prevIndex: nat, index: nat, c: char)
    requires Required(o, req) && Progress(o, req, chars, prev, prevIndex) && !Satisfies(o, chars)
    requires index <= |chars| && (|chars| > 0 ==> index < |chars|) && IsLinkChar(c)
    ensures Progress(o, req, Insert(chars, index, c), chars, index)
  {
    DistinctInsert(chars, index, c);
    RemoveInsert(chars, index, c);
    ClassesStep(o, chars, index, c);
    if |req| >= o.requiredUniqueChars {
      SubsetCard(Distinct(req), Distinct(chars));
    }
  }

  /** When the required characters meet the distinct threshold, a pass of the loop is due only to the length. */
  lemma ProgressRoom(o: PasswordOptions, req: string, chars: string, prev: string, prevIndex: nat)
    requires Required(o, req) && Progress(o, req, chars, prev, prevIndex) && !Satisfies(o, chars)
    requires |req| >= o.requiredUniqueChars
    ensures |chars| < o.requiredLength
  {
    SubsetCard(Distinct(req), Distinct(chars));
  }

  /** When the loop stops: whether it ran, the last insertion was needed, and the length reached. */
  lemma ProgressDone(o: PasswordOptions, req: string, chars: string, prev: string, prevIndex: nat)
    requires Required(o, req) && Progress(o, req, chars, prev, prevIndex) && Satisfies(o, chars)
    ensures |chars| == |req| <==> |req| >= o.requiredLength && |req| >= o.requiredUniqueChars
    ensures |chars| > |req| ==> prevIndex < |chars| && !Satisfies(o, Remove(chars, prevIndex))
    ensures |chars| > |req| && |chars| > 1 ==> prevIndex < |chars| - 1
    ensures |req| >= o.requiredUniqueChars ==> |chars| == Max(|req|, o.requiredLength)
    ensures o.requiredUniqueChars <= |Alphabet|
  {
    SubsetCard(Distinct(req), Distinct(chars));
    DistinctBound(chars);
  }

  /** `Progress` together with the draw bookkeeping of the loop: `pos` draws are used, three per pass. */
  ghost predicate LoopState(o: PasswordOptions, req: string, draws: seq<nat>, chars: string, pos: nat,
                            prev: string, prevIndex: nat) {
    && Progress(o, req, chars, prev, prevIndex)
    && pos == 2 * |req| + 3 * (|chars| - |req|) && pos <= |draws|
  }

  /**
   * One pass of the loop keeps `LoopState`: the class drawn from `draws[pos]`, the
   * index from `draws[pos + 1]` and the character of that class from `draws[pos + 2]`.
   */
  lemma LoopStep(o: PasswordOptions, req: string, draws: seq<nat>, chars: string, pos: nat,
                 prev: string, prevIndex: nat, cls: nat, index: nat, j: nat)
    requires Required(o, req) && LoopState(o, req, draws, chars, pos, prev, prevIndex)
    requires !Satisfies(o, chars) && pos + 3 <= |draws|
    requires cls == Next(draws[pos], |RandomChars|) && index == Next(draws[pos + 1], |chars|)
    requires j == Next(draws[pos + 2], |RandomChars[cls]|)
    ensures LoopState(o, req, draws, Insert(chars, index, RandomChars[cls][j]), pos + 3, chars, index)
    ensures |chars| > 0 ==> Insert(chars, index, RandomChars[cls][j])[|chars|] == chars[|chars| - 1]
  {
    RandomCharAt(cls, j);
    InsertKeepsClasses(chars, index, RandomChars[cls][j]);
    ProgressStep(o, req, chars, prev, prevIndex, index, RandomChars[cls][j]);
  }

  /**
   * When the draws run out before a pass, and the required characters already meet
   * the distinct threshold, there were fewer draws than the length alone needs.
   */
  lemma LoopExhausted(o: PasswordOptions, req: string, draws: seq<nat>, chars: string, pos: nat,
                      prev: string, prevIndex: nat)
    requires Required(o, req) && LoopState(o, req, draws, chars, pos, prev, prevIndex)
    requires !Satisfies(o, chars) && |draws| < pos + 3
    ensures var rc := RequiredCount(o); rc >= o.requiredUniqueChars ==>
      |draws| < 2 * rc + 3 * Max(0, o.requiredLength - rc)
  {
    if |req| >= o.requiredUniqueChars {
      ProgressRoom(o, req, chars, prev, prevIndex);
    }
  }

  /**
   * What is known of the last pass of the loop, which inserted at `index` (when the loop
   * ran at all): taking that character out again breaks a threshold, so the loop stopped
   * at the first point where both held; the insertion was below the `Count` that pass
   * saw; and the character was a random one, since every required character is still
   * there without it.
   */
  predicate LastPass(o: PasswordOptions, req: string, s: string, index: nat) {
    |s| > |req| ==>
      && index < |s| && !Satisfies(o, Remove(s, index))
      && (|s| > 1 ==> index < |s| - 1)
      && multiset(req) <= multiset(Remove(s, index))
  }

  /**
   * What the loop leaves behind, starting from the required characters `req`, when it
   * stops on `s` after its last pass inserted at `index`.
   */
  predicate LoopResult(o: PasswordOptions, req: string, draws: seq<nat>, s: string, index: nat) {
    var rc := RequiredCount(o);
    // both thresholds hold, and every class and the alphabet are kept
    && Classes(o, s) && Satisfies(o, s)
    // the loop only inserts: every required character is still there
    && multiset(req) <= multiset(s) && Distinct(req) <= Distinct(s)
    // every insertion is below `Count`, so the last required character stays last
    && (|req| > 0 ==> |s| > 0 && s[|s| - 1] == req[|req| - 1])
    // the loop body runs exactly when the required characters alone miss a threshold
    && |s| >= rc
    && (|s| == rc <==> rc >= o.requiredLength && rc >= o.requiredUniqueChars)
    // it stops at the first point where both thresholds hold, after inserting below `Count`
    && LastPass(o, req, s, index)
    // when the required characters already meet the distinct threshold, only the length drives the loop
    && (rc >= o.requiredUniqueChars ==> |s| == Max(rc, o.requiredLength))
    // three draws per pass
    && |draws| >= 2 * rc + 3 * (|s| - rc)
  }

  /** When the loop stops, `LoopState` gives what `InsertRandom` promises of its result. */
  lemma LoopDone(o: PasswordOptions, req: string, draws: seq<nat>, chars: string, pos: nat,
                 prev: string, prevIndex: nat)
    requires Required(o, req) && LoopState(o, req, draws, chars, pos, prev, prevIndex)
    requires |req| > 0 ==> chars[|chars| - 1] == req[|req| - 1]
    requires Satisfies(o, chars)
    ensures LoopResult(o, req, draws, chars, prevIndex)
    ensures o.requiredUniqueChars <= |Alphabet|
  {
    ProgressDone(o, req, chars, prev, prevIndex);
    DistinctMultiset(req, chars);
    if |chars| > |req| {
      DistinctMultiset(req, prev);
    }
  }

  /**
   * The `for` loop of `GenerateLink`: starting from the required characters `req`,
   * insert a character of a random class at a random index, three draws per pass,
   * until the length and distinct-character thresholds both hold.
   * Returns None only when `draws` runs out first; `lastIndex` is where the last
   * pass inserted.
   */
  method InsertRandom(o: PasswordOptions, req: string, draws: seq<nat>) returns (link: Option<string>, ghost lastIndex: nat)
    requires Required(o, req) && 2 * |req| <= |draws|
    // everything `LoopResult` says of the link
    ensures link.Some? ==> LoopResult(o, req, draws, link.value, lastIndex)
    // when the required characters already meet the distinct threshold, enough draws for the length suffice
    ensures var rc := RequiredCount(o); rc >= o.requiredUniqueChars ==>
      |draws| >= 2 * rc + 3 * Max(0, o.requiredLength - rc) ==> link.Some?
    // more distinct characters than the alphabet has: the loop never ends
    ensures o.requiredUniqueChars > |Alphabet| ==> link.None?
  {
    var chars := req;
    var pos := 2 * |chars|;
    ghost var prev := chars;
    ghost var prevIndex: nat := 0;

    var i := |chars|;
    while i < o.requiredLength || |Distinct(chars)| < o.requiredUniqueChars
      invariant i == |chars|
      invariant LoopState(o, req, draws, chars, pos, prev, prevIndex)
      // every insertion is below `Count`
      invariant |req| > 0 ==> chars[|chars| - 1] == req[|req| - 1]
      decreases |draws| - pos
    {
      if |draws| < pos + 3 {
        LoopExhausted(o, req, draws, chars, pos, prev, prevIndex);
        return None, 0;
      }
      var cls := Next(draws[pos], |RandomChars|);
      var rcs := RandomChars[cls];
      var index := Next(draws[pos + 1], |chars|);
      var j := Next(draws[pos + 2], |rcs|);
      var c := rcs[j];
      LoopStep(o, req, draws, chars, pos, prev, prevIndex, cls, index, j);
      prev, prevIndex := chars, index;
      chars := Insert(chars, index, c);
      pos := pos + 3;
      i := i + 1;
    }
    LoopDone(o, req, draws, chars, pos, prev, prevIndex);
    link, lastIndex := Some(chars), prevIndex;
  }

  /** What the required-class insertions and the loop together promise of a link `s`. */
  /**
   * What `GenerateLink` promises about a link `s` it returns, with `req` the string the
   * required-class insertions built and `lastIndex` where the loop's last pass inserted.
   */
  ghost predicate Generated(opts: Option<PasswordOptions>, draws: seq<nat>, req: string, s: string, lastIndex: nat) {
    var o := Effective(opts);
    var rc := RequiredCount(o);
    // the alphabet: the three strings of `randomChars`, so never 'I' or 'l'
    && AllLinkChars(s) && 'I' !in s && 'l' !in s
    // both thresholds hold on return
    && Satisfies(o, s)
    // one character of each required class, exactly the ones drawn for those classes,
    // and the loop only inserts: all of them are still there
    && Required(o, req) && multiset(req) == DrawnRequired(o, draws) && multiset(req) <= multiset(s)
    && Classes(o, s)
    // the first required character inserted is the last one of the result
    && (rc > 0 ==> |s| > 0 && s[|s| - 1] == FirstRequired(o, draws))
    // the loop runs exactly when the required characters alone miss a threshold
    && |s| >= rc
    && (|s| == rc <==> rc >= o.requiredLength && rc >= o.requiredUniqueChars)
    // the loop stops at the first point where both thresholds hold, after inserting below `Count`
    && LastPass(o, req, s, lastIndex)
    // when the required characters already meet the distinct threshold, only the length drives the loop
    && (rc >= o.requiredUniqueChars ==> |s| == Max(rc, o.requiredLength))
    // two draws per required character, three per loop iteration
    && |draws| >= 2 * rc + 3 * (|s| - rc)
    // the defaults: six characters, ending in a capital, with all three classes
    && (opts.None? ==> DefaultShape(s))
  }

  /** The facts of the two phases together make a link `Generated` describes. */
  lemma LinkDone(opts: Option<PasswordOptions>, draws: seq<nat>, req: string, s: string, lastIndex: nat)
    requires Required(Effective(opts), req)
    requires EndsInFirstRequired(Effective(opts), draws, req) && multiset(req) == DrawnRequired(Effective(opts), draws)
    requires LoopResult(Effective(opts), req, draws, s, lastIndex)
    ensures Generated(opts, draws, req, s, lastIndex)
  {
    var o := Effective(opts);
    NoConfusables(s);
    if opts.None? {
      assert o == DefaultOptions && |req| == 3;
      assert |s| == Max(3, 6) == 6;
      DefaultShapeOf(s);
    }
  }

  /**
   * `GenerateLink(opts)`: the required-class insertions, then the loop that inserts
   * random characters until the length and distinct-character thresholds both hold.
   * Returns None only when `draws` runs out first; `req` is the string the
   * required-class insertions built and `lastIndex` where the last pass of the
   * loop inserted.
   */
  method GenerateLink(opts: Option<PasswordOptions>, draws: seq<nat>)
    returns (link: Option<string>, ghost req: string, ghost lastIndex: nat)
    ensures link.Some? ==> Generated(opts, draws, req, link.value, lastIndex)
    // enough draws for the required characters and the length: when those already meet the
    // distinct threshold, the loop ends before `draws` runs out
    ensures var o := Effective(opts); var rc := RequiredCount(o);
      rc >= o.requiredUniqueChars && |draws| >= 2 * rc + 3 * Max(0, o.requiredLength - rc) ==> link.Some?
    // more distinct characters than the alphabet has: the C# loop never ends
    ensures Effective(opts).requiredUniqueChars > |Alphabet| ==> link.None?
    // the defaults: fifteen draws always make a link
    ensures opts.None? && |draws| >= 15 ==> link.Some?
  {
    var o := Effective(opts);
    var required := InsertRequired(o, draws);
    if required.None? {
      return None, [], 0;
    }
    var chars := required.value;
    req := chars;
    assert Required(o, chars);
    link, lastIndex := InsertRandom(o, chars, draws);
    if link.Some? {
      LinkDone(opts, draws, req, link.value, lastIndex);
    }
  }
}
