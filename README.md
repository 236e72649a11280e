# Slot-game score reader and canvas search, in Dafny

This project models two pieces of decision logic from a pair of slot-game
automation scripts. It also proves what they promise.

- **Score reader** (`ollama-ocr-slots/score_reader.py`, module `ScoreReader`).
  `read_game_score_custom_crop` first computes a crop rectangle from the screenshot
  size, clamps it to the image and rejects it when it is empty. It then joins the
  OCR fragments with spaces and scans the text for number candidates with
  `\b\d+\.\d{2}\b|\b\d+\b`. It keeps candidates of 1 to 7 characters. Finally it
  answers with the first longest decimal candidate; if there is none, the first
  longest integer; if nothing was kept, the message "No suitable score found.".
  The crop and the length filter are imperative methods, as in the source: the crop
  corners are reassigned, the kept list is built by an append loop, and the score
  is a variable reassigned along the branches. The regex scan, the two partition
  comprehensions and `max(..., key=len)` are pure functions.
- **Canvas search** (`auto-gameplay-slots/auto_play.py`, module `FrameSearch`).
  `find_canvas_in_frames` walks the frame tree of a page in pre-order. It returns
  the first frame whose first canvas is visible. A frame whose probe raises counts
  as "no canvas here", and the search goes on. Each frame is a value
  `Frame(url, probe, children)`, and `probe` is what the browser's
  locate-and-check-visibility call gave: `Visible`, `Hidden` or `Raises`.

Both pieces take their inputs as parameters: the image size (or `None` for a
missing or undecodable file), the OCR fragments (or `None` when recognition
raised) and the frame forest. `wrappers.dfy` holds the `Option` type used for
Python's `None`.

Assumptions and choices:
- The crop ratios `int(w*0.5)`, `int(h*0.1)` and `int(h*0.9)` are the integer
  divisions `w/2`, `h/10` and `9*h/10`. For `w*0.5` this is exact. For 0.1 and 0.9
  the binary constants are slightly above the decimal values, so at the image
  sizes of a screenshot, rounding never falls below the integer quotient.
- The clamp and the emptiness test are modelled for any requested rectangle, not
  only for the configured one. The source's comments invite editing the ratios,
  and with the configured ratios the clamp changes nothing
  (`ConfiguredCropRejectedIff`).
- The scanner treats `\d` as ASCII digits and `\w` as ASCII letters, digits and
  underscore. On the text the reader actually scans (the OCR allow-list `0-9` and
  `.`, joined with spaces) this is exactly Python's regex semantics.
- Behaviour of the code worth noting:
  - The scanned text also contains the spaces added by the join, not only digits
    and points.
  - "1000.0" yields the candidates "1000" and "0"
    (`OneFractionDigitIsNoDecimal`).
  - Two empty OCR fragments join to " ". That text is not empty, so the reader
    answers "No suitable score found.", not "No text found by EasyOCR."
    (`Join`'s contract).
- `find_canvas_in_frames` returns the pair (frame, locator). The locator is
  always `frame.locator("canvas").first`, so the model returns the frame alone.

## Model

| member | source | states |
|---|---|---|
| `ScoreReader.ConfiguredCrop` | ollama-ocr-slots/score_reader.py:40-60 | the configured rectangle (left half, without the top and bottom tenths) lies inside the image |
| `ScoreReader.Clamped` | ollama-ocr-slots/score_reader.py:64-68 | after clamping, `0 <= x1`, `0 <= y1`, `x2 <= w` and `y2 <= h`; a non-empty clamped rectangle lies inside the image; a rectangle already inside the image is left unchanged |
| `ScoreReader.ClampedIsIdempotent` | ollama-ocr-slots/score_reader.py:64-68 | clamping an already clamped rectangle changes nothing, so repeating the crop computation gives the same rectangle |
| `ScoreReader.SliceLength` | ollama-ocr-slots/score_reader.py:76 | the Python slice `[lo:hi]` of a length-`n` axis never exceeds `n`, and has exactly `hi - lo` elements when `0 <= lo <= hi <= n` |
| `ScoreReader.CropToRegion` | ollama-ocr-slots/score_reader.py:64-81 | the region is rejected with "Invalid custom crop region." exactly when the clamped `x1 >= x2` or `y1 >= y2`; otherwise the clamped rectangle is accepted with positive width and height inside the image, and the "empty cropped image" branch is never taken |
| `ScoreReader.ConfiguredCropRejectedIff` | ollama-ocr-slots/score_reader.py:40-73 | the configured crop needs no clamping, and it is rejected exactly when the image is narrower than 2 or lower than 2 pixels |
| `ScoreReader.Join` | ollama-ocr-slots/score_reader.py:102-105 | `" ".join` gives empty text exactly for no fragments or one empty fragment, the only cases that answer "No text found by EasyOCR." |
| `ScoreReader.DigitRun` | ollama-ocr-slots/score_reader.py:117 | the leading digit run is all digits and is followed by a non-digit or by the end, as greedy `\d+` consumes it |
| `ScoreReader.Lead` | ollama-ocr-slots/score_reader.py:114-117 | a match at a position needs a word boundary before it, and is a decimal (`\d+\.\d{2}`) or an integer (`\d+`) followed by a word boundary |
| `ScoreReader.LeadIsFirstFittingAlternative` | ollama-ocr-slots/score_reader.py:114-117 | at each position a decimal that fits is taken, and an integer only when no decimal fits there; there is no match exactly when neither fits |
| `ScoreReader.Scan` | ollama-ocr-slots/score_reader.py:117 | every candidate `re.findall` returns is a non-empty digit run or digits, `.` and exactly two digits |
| `ScoreReader.ScanFindsDelimitedSubstrings` | ollama-ocr-slots/score_reader.py:117 | every candidate is a substring of the text with a word boundary on both sides |
| `ScoreReader.NoDigitsNoCandidates` | ollama-ocr-slots/score_reader.py:117 | text without digits yields no candidates, and so ends in "No suitable score found." |
| `ScoreReader.ScanOfJoinedTokens` | ollama-ocr-slots/score_reader.py:102-117 | scanning well-formed numbers joined by spaces gives back exactly those numbers, in order |
| `ScoreReader.Plausible` | ollama-ocr-slots/score_reader.py:121-127 | the kept list is no longer than the candidate list, and each kept candidate has 1 to 7 characters |
| `ScoreReader.PlausibleMembers` | ollama-ocr-slots/score_reader.py:121-127 | a string is kept exactly when it is a candidate of 1 to 7 characters |
| `ScoreReader.PlausibleOfConcat` | ollama-ocr-slots/score_reader.py:121-127 | filtering distributes over concatenation, so kept candidates stay in their original order |
| `ScoreReader.KeepPlausible` | ollama-ocr-slots/score_reader.py:121-127 | the append loop builds exactly the length-filtered list, which holds exactly the candidates of 1 to 7 characters |
| `ScoreReader.OfKind` | ollama-ocr-slots/score_reader.py:134-136 | `decimal_scores` holds only strings with `.`, `integer_scores` only strings without one |
| `ScoreReader.OfKindOfConcat` | ollama-ocr-slots/score_reader.py:134-136 | each comprehension distributes over concatenation, so both lists keep the candidates' order |
| `ScoreReader.OfKindPartitions` | ollama-ocr-slots/score_reader.py:134-136 | the two lists together hold every kept candidate exactly as often as the kept list does, and a candidate lies in a list exactly when its kind matches |
| `ScoreReader.LongestIndex` | ollama-ocr-slots/score_reader.py:138-143 | `max(..., key=len)` picks an element of maximal length that is the first of that length |
| `ScoreReader.FirstLongestOfKind` | ollama-ocr-slots/score_reader.py:134-143 | the first longest element of one kind's list is the first candidate of maximal length of that kind in the kept list |
| `ScoreReader.ChosenScoreIsUnique` | ollama-ocr-slots/score_reader.py:129-143 | the selection rule determines at most one answer |
| `ScoreReader.SelectScore` | ollama-ocr-slots/score_reader.py:129-143 | with nothing kept the answer is "No suitable score found."; otherwise the answer is a kept candidate: the first longest decimal if any candidate has a point, else the first longest integer |
| `ScoreReader.ChosenScoreIsCandidate` | ollama-ocr-slots/score_reader.py:117-149 | a score picked from a non-empty kept list is a kept, well-formed number of 1 to 7 characters that occurs, delimited, in the joined text, and is never the message |
| `ScoreReader.ReadGameScore` | ollama-ocr-slots/score_reader.py:21-157 | a missing or unreadable image and a raising recognition give `None`; "Invalid custom crop region." exactly for images under 2 pixels wide or high; never the empty-crop message; "No text found by EasyOCR." exactly for empty joined text; otherwise the selection rule applied to the length-filtered scan, which is the message exactly when nothing was kept |
| `ScoreReader.OneFractionDigitIsNoDecimal` | ollama-ocr-slots/score_reader.py:114-117 | "1000.0" scans as "1000" and "0", because a decimal needs exactly two fractional digits |
| `ScoreReader.EightCharactersAreDropped` | ollama-ocr-slots/score_reader.py:123-127 | "99999.99" is a well-formed candidate, but at 8 characters it is not kept |
| `ScoreReader.IntegerAndDecimalAreScanned` | ollama-ocr-slots/score_reader.py:117 | "1234567 1.00" scans as "1234567" and "1.00" |
| `ScoreReader.IntegerAndDecimalAreKept` | ollama-ocr-slots/score_reader.py:121-127 | both "1234567" and "1.00" survive the length filter |
| `ScoreReader.SourceExampleIsScanned` | ollama-ocr-slots/score_reader.py:114-117 | "603 1000.00" scans as "603" and "1000.00" |
| `ScoreReader.DecimalBeatsLongerInteger` | ollama-ocr-slots/score_reader.py:131-140 | of "1234567" and "1.00" the answer is "1.00": a longer integer never beats a decimal |
| `FrameSearch.FindCanvas` | auto-gameplay-slots/auto_play.py:5-32 | a returned frame's probe reported a visible canvas, and it is a frame of the searched forest |
| `FrameSearch.Preorder` | auto-gameplay-slots/auto_play.py:16-31 | the pre-order listing starts with the first frame and lists every top-level frame |
| `FrameSearch.PreorderListsDescendants` | auto-gameplay-slots/auto_play.py:26-29 | every child of a listed frame is listed too, so the listing holds every frame at every depth |
| `FrameSearch.FirstVisible` | auto-gameplay-slots/auto_play.py:16-21 | the reference search: `None` exactly when no listed frame is visible, else the listed frame at the first visible position |
| `FrameSearch.FindCanvasIsFirstVisibleInPreorder` | auto-gameplay-slots/auto_play.py:16-32 | the search result is the first visible frame in pre-order: each frame is probed before its children, and its whole subtree before its next sibling |
| `FrameSearch.NotFoundIffNoVisibleFrame` | auto-gameplay-slots/auto_play.py:16-32 | `None` is returned exactly when no frame in the forest, at any depth, has a visible canvas |
| `FrameSearch.RaisingProbeActsAsHidden` | auto-gameplay-slots/auto_play.py:17-31 | a probe that raises behaves exactly like a hidden canvas, so it never aborts the search: the frame's children and later siblings are still searched |

Termination of the canvas search on every finite frame tree is proved by the
`decreases` clause of `FrameSearch.FindCanvas`: it recurses only on the first
frame's children and on the remaining siblings (auto-gameplay-slots/auto_play.py:27-29).

## Left out

- Image I/O: the existence check, `cv2.imread`, `cv2.imwrite` of the cropped
  region, the grayscale conversion and the pixel data. These are file and library
  calls, so the image is only its size, or `None`.
- The OCR engine (its global GPU reader and `readtext`) is a foreign library call.
  Its output is a parameter. `ReadGameScore` models any exception inside the OCR
  block as `None` for that parameter.
- The `isinstance` filter on OCR results (line 102): `readtext` with `detail=0`
  yields strings, so the fragments are strings.
- Console output (`print`) is not modelled.
- `ReadGameScore`: the float crop ratios are modelled as integer divisions, for
  the reason given above. Images large enough for float rounding to matter are
  not captured.
- `Scan`: non-ASCII digits and letters, which Python's `\d` and `\b` also
  recognise, are not modelled. The OCR allow-list never produces them.
- The commented-out variants of the reader at the end of score_reader.py are dead
  code, and their Ollama calls are network requests.
- `main()` of auto_play.py is left out: browser launch and navigation, sleeps,
  screenshots, clicks and the bounding-box arithmetic are browser I/O and timing.
  The `async`/`await` of the search become ordinary calls.
- `FrameSearch.FindCanvas` returns the frame, not the (frame, locator) pair. The
  locator is determined by the frame.
- auto-gameplay-slots/test.py is a bare data class with no behaviour.
