# Hearing Impairment Assistant: dispatch and playback core in Dafny

The Hearing Impairment Assistant listens for one utterance. It sends the audio to a
speech service and shows the result in Indian Sign Language. A phrase that has a
pre-made animation is played as a looping GIF. Any other transcript is shown one
letter image at a time. This project models the logic between the speech service
and the screen, all of it in `main.py`:

- `normalization.dfy` (module `Normalization`) covers transcript normalisation:
  lower-case the text, then delete the 32 characters of Python's `string.punctuation`.
- `dispatch.dfy` (module `Dispatch`) covers the outcome of recognition. It logs
  `You said: …` and then picks one of three actions: exit on `goodbye`, play the
  phrase GIF `ISL_Gifs/{t}.gif`, or play the text letter by letter. The two
  recognition errors each add their fixed message. The `Assistant` class holds the
  append-only transcript log and the phrase table.
- `letters.dfy` (module `LetterPlayback`) covers letter playback. Each alphabetic
  character, from left to right, becomes the image `letters/{c}.jpg`. The image is
  shown and then held for 0.8 s, and the figure is closed at the end.
- `animation.dfy` (module `Animation`) covers the GIF label. `Load` decodes every
  frame, seeking until end-of-file. `NextFrame` moves the cursor `loc` one frame
  on, modulo the frame count.

Characters are ASCII. `Lower` maps only `A`–`Z`, and `IsAlpha` accepts only `a`–`z`
and `A`–`Z`. Python's `%` and Dafny's `%` agree for the positive divisor used by
`next_frame`, so the cursor update is written with Dafny's operator.

`start_recognition` does not check that the transcript is non-empty, so the model
accepts any string, including the empty one. `load` calls `next_frame` straight
after showing frame 0 (main.py:101-102), so the first advance is immediate, and
`ImageLabel.Load` does the same.

## Model

| member | source | states |
|---|---|---|
| Normalization.Lower | main.py:67 | one character lower-cased: an upper-case letter becomes the letter 32 code points above, anything else is unchanged, and the result is never upper case |
| Normalization.LowerString | main.py:67 | `str.lower()` keeps the length and lower-cases each position in place |
| Normalization.DeletePunctuation | main.py:67 | the `translate` deletion: no punctuation is left and the result is never longer |
| Normalization.DeletePunctuationFromInput | main.py:67 | every character the deletion keeps comes from its input |
| Normalization.Normalize | main.py:67 | the normalised transcript has no ASCII punctuation and no upper-case letter, and is never longer than the raw one |
| Normalization.PunctuationIsStringPunctuation | main.py:67 | the punctuation predicate holds of exactly the 32 characters of `string.punctuation` |
| Normalization.NormalizeChar | main.py:67 | a single punctuation character normalises to nothing, and any other character to itself lower-cased |
| Normalization.NormalizeAppend | main.py:67 | normalisation works character by character and keeps order: normalising `a + b` is normalising `a` followed by normalising `b` |
| Normalization.NormalizeLength | main.py:67 | the output length is the input length minus the number of punctuation characters in the input |
| Normalization.NormalizeFixes | main.py:67 | text with no punctuation and no upper-case letter is left unchanged by normalisation |
| Normalization.NormalizeIdempotent | main.py:67 | normalising twice is the same as normalising once |
| Dispatch.Respond | main.py:66-82 | the decision always logs at least one line. A playback is chosen exactly when the speech was recognised; then the first line is `You said: ` with the normalised transcript, and the exit is chosen iff that transcript is `goodbye`. An error logs exactly one line |
| Dispatch.RecognizedDispatch | main.py:67-77 | for a recognised transcript `t` (normalised), the log gains `You said: t` first. Exactly one action follows: exit iff `t == "goodbye"` (even if the table holds it), GIF `ISL_Gifs/{t}.gif` iff `t` is in the table and is not the exit word, letters of `t` otherwise. Only the exit adds `Goodbye!` |
| Dispatch.ErrorDispatch | main.py:79-82 | an unrecognised utterance or a service error adds exactly its one fixed line (the second with the error text embedded) and chooses no playback |
| Dispatch.LettersPlayedAreLowerCase | main.py:67-77 | every letter played back on the letter path is a lower-case letter, because normalisation runs before dispatch |
| Dispatch.GoodbyeNormalizes | main.py:67 | `Goodbye!` normalises to the exit word `goodbye` |
| Dispatch.GoodbyeExample | main.py:67-72 | `Goodbye!` is logged as `You said: goodbye`, followed by `Goodbye!`, and exits whatever the phrase table holds |
| Dispatch.HelloExample | main.py:67-75 | `Hello` with `hello` in the table is logged and plays `ISL_Gifs/hello.gif` |
| Dispatch.Assistant.constructor | main.py:18-45 | the assistant starts with the given phrase table and an empty transcript log |
| Dispatch.Assistant.Insert | main.py:68 | inserting at the end appends the line to the log and changes nothing else |
| Dispatch.Assistant.StartRecognition | main.py:66-82 | the log becomes its old contents followed by exactly the response's lines, in order (append-only), and the action returned is the one the dispatch decision picks |
| LetterPlayback.Letters | main.py:118-119 | the characters the loop shows are alphabetic and are never more than the text has; that they come from the text is `LettersFromText`, and that every alphabetic character is shown, in order, is stated by `LettersChar`, `LettersCount` and the append lemma |
| LetterPlayback.LettersFromText | main.py:118-119 | every letter shown is a character of the text |
| LetterPlayback.LettersChar | main.py:118-119 | a single character is kept iff it is alphabetic; together with the order-keeping append lemma this fixes which characters are shown |
| LetterPlayback.LettersCount | main.py:118-119 | every alphabetic character is kept: the number of letters equals the number of alphabetic characters in the text |
| LetterPlayback.LetterPaths | main.py:118-120 | one path per alphabetic character, in order, each `letters/{c}.jpg` of that character |
| LetterPlayback.LetterPathNamesLetter | main.py:120 | a letter path names its letter at a fixed position, so two letters share an image iff they are equal |
| LetterPlayback.SlideshowShowsPaths | main.py:121-125 | each path is displayed and then immediately held for 0.8 s, in order (event `2i` displays path `i`, event `2i+1` pauses 8 tenths). The displayed paths are exactly the input, and the total pause is 8 tenths per path |
| LetterPlayback.ShowAlphabetImages | main.py:117-126 | the loop shows and holds each letter image in order, skips the rest, and closes the figure at the end |
| LetterPlayback.PlaybackOfText | main.py:117-126 | playback displays exactly the text's letter paths and blocks for 0.8 s times the number of letters; a text without letters only closes the figure |
| LetterPlayback.PlaybackExample | main.py:118-120 | `xyz123` shows the images of x, y and z and skips the digits |
| LetterPlayback.PlaybackExampleDuration | main.py:118-125 | `xyz123` blocks for 2.4 s in all, 0.8 s for each of its three letters |
| Animation.Advance | main.py:106 | the cursor stays within the frames: it moves one on from an in-range position and returns to 0 after the last frame |
| Animation.AdvanceTimesWraps | main.py:104-108 | `k` advances from an in-range cursor land at `(loc + k) % count` |
| Animation.CursorCycles | main.py:104-108 | after as many advances as there are frames, the cursor is back where it started, so the animation loops |
| Animation.ImageLabel.constructor | main.py:113 | a fresh label has no frames, has shown nothing, and has its cursor at frame 0 (an initialisation the source lacks, see Findings) |
| Animation.ImageLabel.Load | main.py:90-102 | `load` decodes every frame of the image, in order: frame 0 before the first seek, then one per successful seek, so there is at least one frame. Frame 0 is shown, then `next_frame` moves the cursor to `1 % count` and shows that frame |
| Animation.ImageLabel.NextFrame | main.py:104-107 | it keeps the display invariant (the cursor is in range and the label shows the frame under it). With frames, `loc` becomes `(loc + 1) % len(frames)`, which is in range and wraps to 0 after the last frame, and that frame is shown; with no frames nothing changes |
| Animation.LoadAsWrittenFails | main.py:101-106 | as written, `load` on a fresh label raises AttributeError for `loc` for every image |

## Left out

- The microphone, ambient-noise calibration, `listen` and the `recognize_google` network call are I/O and a foreign service. The service's answer is the `Recognition` input: a transcript, `UnknownValue` or `RequestError(detail)`.
- Exceptions other than the two caught ones are not modelled. Examples are a listen timeout or a failure while playing back.
- The tkinter widgets are user-interface plumbing and are not modelled. This covers the window, buttons, title label, `messagebox`, the `update()` calls, the microphone icon toggling and the popup window that `show_gif` opens. The text area is modelled only as the string of what was inserted; the widget's own trailing newline is not.
- Dispatch.Assistant.StartRecognition: returns the chosen action instead of calling `show_gif` or `show_alphabet_images` itself. Those two paths are modelled by `Animation.ImageLabel.Load` and `LetterPlayback.ShowAlphabetImages`. Opening the file a path names is not part of this model.
- Image files are not modelled: opening them, decoding with PIL, converting with numpy, and displaying with matplotlib. Showing an image is an abstract event. The 0.8 s `plt.pause` is counted in whole tenths of a second, not as a float delay.
- A missing GIF or letter image file raises an uncaught error in the source. No file system is modelled, so this case is not.
- `Load` takes an already opened image. The `isinstance(im, str)` branch, which opens a path, is left out.
- The `after(self.delay, …)` rescheduling is a timer. The model covers only the cursor update it repeats and the frames it shows.
- Unicode `str.lower()` and `str.isalpha()` are restricted to ASCII. Non-ASCII letters are neither lower-cased nor played back, which differs from Python.
- The phrase table is a placeholder list in the source, so it is a parameter of `Assistant`.

## Findings

| source | as written | input that shows it | evidently intended | confidence | as-written member | corrected member |
|---|---|---|---|---|---|---|
| main.py:101-108 | `load` calls `next_frame`, which reads `self.loc` (and then `self.delay`), but neither is ever assigned, so Python raises AttributeError and the animation never advances | any GIF phrase, e.g. a one-frame image loaded into a fresh label | `loc` starts at 0 when the frames are loaded, and `delay` comes from the image's frame duration | high, not executed | Animation.LoadAsWrittenFails | Animation.ImageLabel.Load |
