// Letter-sequence playback (main.py lines 117-126): for each character of the
// transcript, left to right, an alphabetic character is shown as the image
// `letters/{c}.jpg` for 0.8 seconds; every other character is skipped.
//
// Alphabetic means ASCII 'a'..'z' or 'A'..'Z'. Displaying an image is an
// abstract event; the 0.8-second pause is counted in tenths of a second.

module LetterPlayback {

  predicate IsAlpha(c: char) {
    ('a' <= c <= 'z') || ('A' <= c <= 'Z')
  }

  /** The image resource for one letter, by naming convention. */
  function LetterPath(c: char): string {
    "letters/" + [c] + ".jpg"
  }

  /** The alphabetic characters of `text`, in order. */
  function Letters(text: string): (r: string)
    ensures |r| <= |text|
    ensures forall i :: 0 <= i < |r| ==> IsAlpha(r[i])
  {
    if text == [] then []
    else (if IsAlpha(text[0]) then [text[0]] else []) + Letters(text[1..])
  }

  /** Every letter shown comes from the text. */
  lemma {:induction false} LettersFromText(text: string)
    ensures forall i :: 0 <= i < |Letters(text)| ==> Letters(text)[i] in text
  {
    if text != [] {
      LettersFromText(text[1..]);
      var head := if IsAlpha(text[0]) then [text[0]] else [];
      forall i | 0 <= i < |Letters(text)| ensures Letters(text)[i] in text {
        if i >= |head| {
          assert Letters(text)[i] == Letters(text[1..])[i - |head|];
          assert Letters(text)[i] in text[1..];
        }
      }
    }
  }

  lemma {:induction false} LettersAppend(a: string, b: string)
    ensures Letters(a + b) == Letters(a) + Letters(b)
  {
    if a == [] {
      assert a + b == b;
    } else {
      assert (a + b)[0] == a[0];
      assert (a + b)[1..] == a[1..] + b;
      LettersAppend(a[1..], b);
    }
  }

  /** A single character is kept exactly when it is alphabetic. */
  lemma LettersChar(c: char)
    ensures Letters([c]) == if IsAlpha(c) then [c] else []
  {
    assert [c][1..] == [];
  }

  /** How many alphabetic characters `text` holds. */
  function AlphaCount(text: string): nat {
    if text == [] then 0 else AlphaCount(text[..|text| - 1]) + (if IsAlpha(text[|text| - 1]) then 1 else 0)
  }

  /** Every alphabetic character is kept: there are as many letters as alphabetic characters. */
  lemma {:induction false} LettersCount(text: string)
    ensures |Letters(text)| == AlphaCount(text)
  {
    if text != [] {
      var init, last := text[..|text| - 1], text[|text| - 1];
      assert text == init + [last];
      LettersAppend(init, [last]);
      LettersChar(last);
      LettersCount(init);
    }
  }

  /**
   * The images shown for `text`, built as the playback loop visits it: the last
   * character contributes last.
   */
  function LetterPaths(text: string): (r: seq<string>)
    ensures |r| == |Letters(text)|
    ensures forall i :: 0 <= i < |r| ==> r[i] == LetterPath(Letters(text)[i])
  {
    if text == [] then []
    else
      var init, last := text[..|text| - 1], text[|text| - 1];
      assert text == init + [last];
      LettersAppend(init, [last]);
      LetterPaths(init) + (if IsAlpha(last) then [LetterPath(last)] else [])
  }

  /** A letter path names its letter at a fixed offset, so distinct letters get distinct images. */
  lemma LetterPathNamesLetter(c: char, d: char)
    ensures |LetterPath(c)| == 13 && LetterPath(c)[8] == c
    ensures LetterPath(c) == LetterPath(d) <==> c == d
  {
    assert LetterPath(c)[8] == c && LetterPath(d)[8] == d;
  }

  /** What the display does: show an image, hold it, and finally close the window. */
  datatype Event = Display(path: string) | Pause(tenths: nat) | Close

  /** Hold time per letter: 0.8 seconds. */
  const LetterTenths: nat := 8

  /** Each path displayed and then held for `LetterTenths`. */
  function Slideshow(paths: seq<string>): seq<Event> {
    if paths == [] then []
    else Slideshow(paths[..|paths| - 1]) + [Display(paths[|paths| - 1]), Pause(LetterTenths)]
  }

  function Displayed(events: seq<Event>): seq<string> {
    if events == [] then []
    else Displayed(events[..|events| - 1])
         + (if events[|events| - 1].Display? then [events[|events| - 1].path] else [])
  }

  function PauseTotal(events: seq<Event>): nat {
    if events == [] then 0
    else PauseTotal(events[..|events| - 1])
         + (if events[|events| - 1].Pause? then events[|events| - 1].tenths else 0)
  }

  lemma {:induction false} DisplayedAppend(a: seq<Event>, b: seq<Event>)
    ensures Displayed(a + b) == Displayed(a) + Displayed(b)
    ensures PauseTotal(a + b) == PauseTotal(a) + PauseTotal(b)
  {
    if b != [] {
      assert (a + b)[..|a + b| - 1] == a + b[..|b| - 1];
      DisplayedAppend(a, b[..|b| - 1]);
    } else {
      assert a + b == a;
    }
  }

  lemma StepShowsPath(p: string)
    ensures Displayed([Display(p), Pause(LetterTenths)]) == [p]
    ensures PauseTotal([Display(p), Pause(LetterTenths)]) == LetterTenths
  {
    var step := [Display(p), Pause(LetterTenths)];
    assert step[..1] == [Display(p)];
    assert step[..1][..0] == [];
    assert Displayed(step[..1]) == [p];
    assert PauseTotal(step[..1]) == 0;
  }

  /** The slideshow displays exactly the given paths, in order, and pauses 0.8 seconds for each. */
  lemma {:induction false} SlideshowShowsPaths(paths: seq<string>)
    ensures Displayed(Slideshow(paths)) == paths
    ensures PauseTotal(Slideshow(paths)) == LetterTenths * |paths|
    ensures |Slideshow(paths)| == 2 * |paths|
    ensures forall i :: 0 <= i < |paths| ==>
      Slideshow(paths)[2 * i] == Display(paths[i]) && Slideshow(paths)[2 * i + 1] == Pause(LetterTenths)
  {
    if paths != [] {
      var init, last := paths[..|paths| - 1], paths[|paths| - 1];
      SlideshowShowsPaths(init);
      forall i | 0 <= i < |paths|
        ensures Slideshow(paths)[2 * i] == Display(paths[i]) && Slideshow(paths)[2 * i + 1] == Pause(LetterTenths)
      {
        if i < |init| {
          assert paths[i] == init[i];
        }
      }
      DisplayedAppend(Slideshow(init), [Display(last), Pause(LetterTenths)]);
      StepShowsPath(last);
      assert paths == init + [last];
    }
  }

  lemma SlideshowPause(paths: seq<string>)
    ensures PauseTotal(Slideshow(paths)) == LetterTenths * |paths|
  {
    SlideshowShowsPaths(paths);
  }

  lemma LetterPathsSnoc(s: string, c: char)
    ensures LetterPaths(s + [c]) == LetterPaths(s) + (if IsAlpha(c) then [LetterPath(c)] else [])
  {
    assert (s + [c])[..|s + [c]| - 1] == s;
  }

  lemma SlideshowSnoc(paths: seq<string>, p: string)
    ensures Slideshow(paths + [p]) == Slideshow(paths) + [Display(p), Pause(LetterTenths)]
  {
    assert (paths + [p])[..|paths + [p]| - 1] == paths;
  }

  /** `show_alphabet_images`: the loop over the characters, then closing the figure. */
  method ShowAlphabetImages(text: string) returns (events: seq<Event>)
    ensures events == Slideshow(LetterPaths(text)) + [Close]
  {
    events := [];
    for i := 0 to |text|
      invariant events == Slideshow(LetterPaths(text[..i]))
    {
      assert text[..i + 1] == text[..i] + [text[i]];
      LetterPathsSnoc(text[..i], text[i]);
      var c := text[i];
      if IsAlpha(c) {
        var imagePath := LetterPath(c);
        SlideshowSnoc(LetterPaths(text[..i]), imagePath);
        events := events + [Display(imagePath), Pause(LetterTenths)];
      } else {
        assert LetterPaths(text[..i + 1]) == LetterPaths(text[..i]);
      }
    }
    assert text[..|text|] == text;
    events := events + [Close];
  }

  /**
   * One image per alphabetic character, in order, each at `letters/{c}.jpg`;
   * the playback blocks for 0.8 seconds per letter, and a text without letters
   * shows nothing.
   */
  lemma PlaybackOfText(text: string)
    ensures Displayed(Slideshow(LetterPaths(text)) + [Close]) == LetterPaths(text)
    ensures PauseTotal(Slideshow(LetterPaths(text)) + [Close]) == LetterTenths * |Letters(text)|
    ensures Letters(text) == [] ==> Slideshow(LetterPaths(text)) + [Close] == [Close]
  {
    SlideshowShowsPaths(LetterPaths(text));
    DisplayedAppend(Slideshow(LetterPaths(text)), [Close]);
    assert [Close][..0] == [];
  }

  /** "xyz123": three images (x, y, z), the digits skipped. */
  lemma PlaybackExample()
    ensures LetterPaths("xyz123") == [LetterPath('x'), LetterPath('y'), LetterPath('z')]
  {
    LettersAppend("x", "yz123");
    LettersAppend("y", "z123");
    LettersAppend("z", "123");
    LettersAppend("1", "23");
    LettersAppend("2", "3");
    assert Letters("xyz123") == "xyz";
  }

  /** "xyz123" blocks for 2.4 seconds in all: 0.8 seconds for each of its three letters. */
  lemma PlaybackExampleDuration()
    ensures PauseTotal(Slideshow(LetterPaths("xyz123"))) == 24
  {
    PlaybackExample();
    SlideshowPause(LetterPaths("xyz123"));
  }
}
