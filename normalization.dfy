// Transcript normalisation: the recognised text is lower-cased and then every
// ASCII punctuation character is deleted (main.py line 67).
//
// Characters are modelled as ASCII: `Lower` maps 'A'..'Z' to 'a'..'z' and leaves
// every other character alone.

module Normalization {

  /** The 32 characters of Python's `string.punctuation`, in its order. */
  const Punctuation: string := "!\"#$%&'()*+,-./:;<=>?@[\\]^_`{|}~"

  /** ASCII punctuation, given by the four code-point ranges that make up `Punctuation`. */
  predicate IsPunctuation(c: char) {
    ('!' <= c <= '/') || (':' <= c <= '@') || ('[' <= c <= '`') || ('{' <= c <= '~')
  }

  predicate IsUpper(c: char) {
    'A' <= c <= 'Z'
  }

  /** ASCII lower-casing of one character. */
  function Lower(c: char): (r: char)
    ensures !IsUpper(r)
    ensures IsUpper(c) ==> 'a' <= r <= 'z' && r as int - c as int == 32
    ensures !IsUpper(c) ==> r == c
  {
    if IsUpper(c) then (c as int + 32) as char else c
  }

  /** `str.lower()`: every character lower-cased, in place. */
  function LowerString(s: string): (r: string)
    ensures |r| == |s|
    ensures forall i :: 0 <= i < |s| ==> r[i] == Lower(s[i])
  {
    if s == [] then [] else [Lower(s[0])] + LowerString(s[1..])
  }

  /** `str.translate(str.maketrans("", "", string.punctuation))`: punctuation deleted. */
  function DeletePunctuation(s: string): (r: string)
    ensures |r| <= |s|
    ensures forall i :: 0 <= i < |r| ==> !IsPunctuation(r[i])
  {
    if s == [] then []
    else (if IsPunctuation(s[0]) then [] else [s[0]]) + DeletePunctuation(s[1..])
  }

  /** Every character the deletion keeps comes from its input. */
  lemma {:induction false} DeletePunctuationFromInput(s: string)
    ensures forall i :: 0 <= i < |DeletePunctuation(s)| ==> DeletePunctuation(s)[i] in s
  {
    if s != [] {
      DeletePunctuationFromInput(s[1..]);
      var head := if IsPunctuation(s[0]) then [] else [s[0]];
      forall i | 0 <= i < |DeletePunctuation(s)| ensures DeletePunctuation(s)[i] in s {
        if i >= |head| {
          assert DeletePunctuation(s)[i] == DeletePunctuation(s[1..])[i - |head|];
          assert DeletePunctuation(s)[i] in s[1..];
        }
      }
    }
  }

  /** The normalised transcript: no punctuation, no upper-case letter, never longer. */
  function Normalize(s: string): (r: string)
    ensures |r| <= |s|
    ensures forall i :: 0 <= i < |r| ==> !IsPunctuation(r[i]) && !IsUpper(r[i])
  {
    DeletePunctuationFromInput(LowerString(s));
    DeletePunctuation(LowerString(s))
  }

  /** The range predicate and Python's 32-character constant agree. */
  lemma PunctuationIsStringPunctuation(c: char)
    ensures |Punctuation| == 32
    ensures IsPunctuation(c) <==> c in Punctuation
  {
    if IsPunctuation(c) {
      var k := if c <= '/' then c as int - 33
               else if c <= '@' then c as int - 58 + 15
               else if c <= '`' then c as int - 91 + 22
               else c as int - 123 + 28;
      assert Punctuation[k] == c;
    }
  }

  lemma {:induction false} LowerStringAppend(a: string, b: string)
    ensures LowerString(a + b) == LowerString(a) + LowerString(b)
  {
    assert LowerString(a + b) == LowerString(a) + LowerString(b) by {
      var l, r := LowerString(a + b), LowerString(a) + LowerString(b);
      assert |l| == |r|;
      forall i | 0 <= i < |l| ensures l[i] == r[i] {
        if i < |a| { assert (a + b)[i] == a[i]; } else { assert (a + b)[i] == b[i - |a|]; }
      }
    }
  }

  lemma {:induction false} DeletePunctuationAppend(a: string, b: string)
    ensures DeletePunctuation(a + b) == DeletePunctuation(a) + DeletePunctuation(b)
  {
    if a != [] {
      assert (a + b)[0] == a[0];
      assert (a + b)[1..] == a[1..] + b;
      DeletePunctuationAppend(a[1..], b);
    } else {
      assert a + b == b;
    }
  }

  /** Text without punctuation is left as it is by the deletion. */
  lemma {:induction false} DeletePunctuationKeeps(s: string)
    requires forall i :: 0 <= i < |s| ==> !IsPunctuation(s[i])
    ensures DeletePunctuation(s) == s
  {
    if s != [] {
      DeletePunctuationKeeps(s[1..]);
    }
  }

  /** Normalising one character: punctuation vanishes, anything else is lower-cased. */
  lemma NormalizeChar(c: char)
    ensures Normalize([c]) == if IsPunctuation(c) then [] else [Lower(c)]
  {
    assert LowerString([c]) == [Lower(c)];
    assert IsPunctuation(Lower(c)) == IsPunctuation(c);
  }

  /**
   * Normalisation works character by character and keeps order: together with
   * NormalizeChar this determines Normalize completely, so exactly the
   * punctuation is deleted and every other character survives, lower-cased,
   * in its original position relative to the others.
   */
  lemma NormalizeAppend(a: string, b: string)
    ensures Normalize(a + b) == Normalize(a) + Normalize(b)
  {
    LowerStringAppend(a, b);
    DeletePunctuationAppend(LowerString(a), LowerString(b));
  }

  /** How many punctuation characters `s` holds. */
  function PunctuationCount(s: string): nat {
    if s == [] then 0 else (if IsPunctuation(s[0]) then 1 else 0) + PunctuationCount(s[1..])
  }

  /** The output is as long as the input less the punctuation deleted from it. */
  lemma {:induction false} NormalizeLength(s: string)
    ensures |Normalize(s)| == |s| - PunctuationCount(s)
  {
    if s != [] {
      assert s == [s[0]] + s[1..];
      NormalizeAppend([s[0]], s[1..]);
      NormalizeChar(s[0]);
      NormalizeLength(s[1..]);
    }
  }

  /** Text with no punctuation and no upper-case letter is already normalised. */
  lemma NormalizeFixes(s: string)
    requires forall i :: 0 <= i < |s| ==> !IsPunctuation(s[i]) && !IsUpper(s[i])
    ensures Normalize(s) == s
  {
    assert LowerString(s) == s;
    DeletePunctuationKeeps(s);
  }

  /** Normalising a normalised transcript changes nothing. */
  lemma NormalizeIdempotent(s: string)
    ensures Normalize(Normalize(s)) == Normalize(s)
  {
    NormalizeFixes(Normalize(s));
  }
}
