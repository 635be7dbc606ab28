// Recognition outcome, transcript log and dispatch (main.py lines 66-82):
// a recognised transcript is normalised and logged as "You said: ...", then
// exactly one of three things happens: the exit word "goodbye" ends the cycle
// with a farewell line, a phrase of the GIF table plays its animation, and
// anything else is played letter by letter. The two recognition errors log a
// fixed message and play nothing.

module Dispatch {
  import opened Normalization
  import opened LetterPlayback

  /** What the speech service returns: a transcript, or one of its two errors. */
  datatype Recognition =
    | Recognized(transcript: string)
    | UnknownValue
    | RequestError(detail: string)

  /** The playback chosen for one recognition. */
  datatype Action =
    | Farewell
    | ShowGif(path: string)
    | ShowLetters(text: string)
    | NoPlayback

  /** The lines inserted at the end of the transcript log, in order, and the action taken. */
  datatype Response = Response(inserted: seq<string>, action: Action)

  const ExitWord: string := "goodbye"
  const FarewellLine: string := "Goodbye!\n"
  const UnknownValueLine: string := "Sorry, I could not understand the audio.\n"

  function HeardLine(transcript: string): string {
    "You said: " + transcript + "\n"
  }

  function RequestErrorLine(detail: string): string {
    "Could not request results from the speech recognition service; " + detail + "\n"
  }

  /** The animation resource of a phrase (main.py line 115). */
  function GifPath(phrase: string): string {
    "ISL_Gifs/" + phrase + ".gif"
  }

  /**
   * The decision `start_recognition` takes once the service has answered: at
   * least one line is logged, a playback is chosen exactly when the speech was
   * recognised, and a recognised transcript is logged, normalised, first.
   */
  function Respond(rec: Recognition, phrases: seq<string>): (r: Response)
    ensures |r.inserted| >= 1
    ensures r.action != NoPlayback <==> rec.Recognized?
    ensures rec.Recognized? ==> r.inserted[0] == HeardLine(Normalize(rec.transcript))
    ensures rec.Recognized? ==> (r.action.Farewell? <==> Normalize(rec.transcript) == ExitWord)
    ensures !rec.Recognized? ==> |r.inserted| == 1
  {
    match rec
    case Recognized(raw) =>
      var t := Normalize(raw);
      if t == ExitWord then Response([HeardLine(t), FarewellLine], Farewell)
      else if t in phrases then Response([HeardLine(t)], ShowGif(GifPath(t)))
      else Response([HeardLine(t)], ShowLetters(t))
    case UnknownValue => Response([UnknownValueLine], NoPlayback)
    case RequestError(detail) => Response([RequestErrorLine(detail)], NoPlayback)
  }

  /** The text of several insertions at the end of the log. */
  function Concat(lines: seq<string>): string {
    if lines == [] then "" else Concat(lines[..|lines| - 1]) + lines[|lines| - 1]
  }

  /**
   * A recognised transcript is logged first, normalised, before anything else;
   * exactly one of exit, GIF and letter playback follows, exit taking precedence
   * over the phrase table, and only the exit adds a second line.
   */
  lemma RecognizedDispatch(raw: string, phrases: seq<string>)
    ensures var t, r := Normalize(raw), Respond(Recognized(raw), phrases);
      && r.inserted[0] == HeardLine(t)
      && r.action != NoPlayback
      && (r.action.Farewell? <==> t == ExitWord)
      && (r.action.ShowGif? <==> t != ExitWord && t in phrases)
      && (r.action.ShowLetters? <==> t != ExitWord && t !in phrases)
      && (r.action.ShowGif? ==> r.action.path == GifPath(t))
      && (r.action.ShowLetters? ==> r.action.text == t)
      && r.inserted == [HeardLine(t)] + (if t == ExitWord then [FarewellLine] else [])
  {
  }

  /** A recognition error logs its one fixed line and plays nothing. */
  lemma ErrorDispatch(rec: Recognition, phrases: seq<string>)
    requires !rec.Recognized?
    ensures Respond(rec, phrases).action == NoPlayback
    ensures Respond(rec, phrases).inserted ==
      [if rec.UnknownValue? then UnknownValueLine else RequestErrorLine(rec.detail)]
  {
  }

  /** The letters played back are lower case: normalisation runs before dispatch. */
  lemma {:induction false} LettersPlayedAreLowerCase(raw: string, phrases: seq<string>)
    requires Respond(Recognized(raw), phrases).action.ShowLetters?
    ensures var t := Respond(Recognized(raw), phrases).action.text;
      forall i :: 0 <= i < |Letters(t)| ==> 'a' <= Letters(t)[i] <= 'z'
  {
    var t := Normalize(raw);
    LettersFromText(t);
    forall i | 0 <= i < |Letters(t)| ensures 'a' <= Letters(t)[i] <= 'z' {
      var c := Letters(t)[i];
      assert c in t;
      var j :| 0 <= j < |t| && t[j] == c;
      assert !IsUpper(t[j]);
    }
  }

  lemma GoodbyeNormalizes()
    ensures Normalize("Goodbye!") == ExitWord
  {
    var raw := "Goodbye!";
    assert raw == "G" + "oodbye" + "!";
    NormalizeAppend("G" + "oodbye", "!");
    NormalizeAppend("G", "oodbye");
    NormalizeChar('G');
    NormalizeChar('!');
    NormalizeFixes("oodbye");
  }

  /** "Goodbye!" normalises to the exit word: farewell, whatever the phrase table holds. */
  lemma GoodbyeExample(phrases: seq<string>)
    ensures Respond(Recognized("Goodbye!"), phrases) == Response([HeardLine("goodbye"), FarewellLine], Farewell)
  {
    GoodbyeNormalizes();
  }

  /** "Hello" with "hello" in the table plays `ISL_Gifs/hello.gif`. */
  lemma HelloExample(phrases: seq<string>)
    requires "hello" in phrases
    ensures Respond(Recognized("Hello"), phrases) == Response([HeardLine("hello")], ShowGif(GifPath("hello")))
  {
    assert Normalize("Hello") == "hello" by {
      assert "Hello" == "H" + "ello";
      NormalizeAppend("H", "ello");
      NormalizeChar('H');
      NormalizeFixes("ello");
    }
  }

  /** The application: the phrase table and the transcript log it appends to. */
  class Assistant {
    /** Everything inserted into the transcript text area so far. */
    var log: string
    /** The phrases that have an animation. */
    const phrases: seq<string>

    constructor (phrases: seq<string>)
      ensures this.phrases == phrases && log == ""
    {
      this.phrases := phrases;
      log := "";
    }

    /** `result_text.insert(tk.END, line)` */
    method Insert(line: string)
      modifies this`log
      ensures log == old(log) + line
    {
      log := log + line;
    }

    /**
     * `start_recognition` after the service has answered `rec`: the log gains
     * exactly the response's lines, and the chosen playback is returned.
     */
    method StartRecognition(rec: Recognition) returns (action: Action)
      modifies this`log
      ensures log == old(log) + Concat(Respond(rec, phrases).inserted)
      ensures action == Respond(rec, phrases).action
    {
      match rec {
        case Recognized(raw) =>
          var text := Normalize(raw);
          Insert(HeardLine(text));
          if text == ExitWord {
            Insert(FarewellLine);
            assert [HeardLine(text), FarewellLine][..1] == [HeardLine(text)];
            return Farewell;
          }
          if text in phrases {
            action := ShowGif(GifPath(text));
          } else {
            action := ShowLetters(text);
          }
          assert Concat([HeardLine(text)]) == HeardLine(text);
        case UnknownValue =>
          Insert(UnknownValueLine);
          action := NoPlayback;
          assert Concat([UnknownValueLine]) == UnknownValueLine;
        case RequestError(detail) =>
          Insert(RequestErrorLine(detail));
          action := NoPlayback;
          assert Concat([RequestErrorLine(detail)]) == RequestErrorLine(detail);
      }
    }
  }
}
