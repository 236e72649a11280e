/**
 * The score reader of the slot-game OCR tool: `read_game_score_custom_crop`
 * crops a fixed region of a screenshot, lets the OCR engine read it with the
 * allow-list `0123456789.`, and picks the most plausible score out of the
 * recognised text.
 *
 * The image and the OCR engine are parameters here: the image is its size,
 * or `None` when the file is missing or cannot be decoded; the OCR result is
 * the list of recognised fragments, or `None` when recognition raised.
 */
module ScoreReader {
  import opened Wrappers

  // ---------------------------------------------------------------------------
  // Messages returned in place of a score
  // ---------------------------------------------------------------------------

  const INVALID_CROP_REGION := "Invalid custom crop region."
  const EMPTY_CROPPED_IMAGE := "Empty cropped image after crop."
  const NO_TEXT_FOUND := "No text found by EasyOCR."
  const NO_SUITABLE_SCORE := "No suitable score found."

  // ---------------------------------------------------------------------------
  // Crop region
  // ---------------------------------------------------------------------------

  /** Size of the decoded screenshot, from `cv_image_original.shape`. */
  datatype ImageSize = ImageSize(width: nat, height: nat)

  /** A crop rectangle: columns `x1 .. x2` and rows `y1 .. y2`, upper bounds exclusive. */
  datatype Rect = Rect(x1: int, y1: int, x2: int, y2: int)

  datatype CropOutcome = InvalidRegion | EmptyCrop | Cropped(region: Rect)

  predicate WithinImage(width: nat, height: nat, r: Rect) {
    0 <= r.x1 <= r.x2 <= width && 0 <= r.y1 <= r.y2 <= height
  }

  /** The region is rejected when it has no columns or no rows. */
  predicate IsEmptyRegion(r: Rect) {
    r.x1 >= r.x2 || r.y1 >= r.y2
  }

  function Max(a: int, b: int): int { if a >= b then a else b }

  function Min(a: int, b: int): int { if a <= b then a else b }

  /**
   * The configured crop: the left half of the image, without its top and
   * bottom tenths. The ratios 0.5, 0.1 and 0.9 are integer divisions here.
   */
  function ConfiguredCrop(size: ImageSize): (r: Rect)
    ensures WithinImage(size.width, size.height, r)
  {
    Rect(0, size.height / 10, size.width / 2, 9 * size.height / 10)
  }

  /**
   * The clamp applied to the crop corners: left and top are raised to 0,
   * right and bottom lowered to the image size.
   */
  function Clamped(width: nat, height: nat, r: Rect): (c: Rect)
    ensures 0 <= c.x1 && 0 <= c.y1 && c.x2 <= width && c.y2 <= height
    ensures !IsEmptyRegion(c) ==> WithinImage(width, height, c)
    ensures WithinImage(width, height, r) ==> c == r
  {
    Rect(Max(0, r.x1), Max(0, r.y1), Min(width, r.x2), Min(height, r.y2))
  }

  /** Clamping twice gives the same rectangle as clamping once. */
  lemma ClampedIsIdempotent(width: nat, height: nat, r: Rect)
    ensures Clamped(width, height, Clamped(width, height, r)) == Clamped(width, height, r)
  {
  }

  /** Python's normalisation of a slice bound `i` on a sequence of length `n`. */
  function SliceBound(i: int, n: nat): (b: nat)
    ensures b <= n
    ensures 0 <= i <= n ==> b == i
  {
    if i < 0 then (if i + n < 0 then 0 else i + n)
    else if i > n then n
    else i
  }

  /** Length of the Python slice `[lo:hi]` of a sequence of length `n`. */
  function SliceLength(lo: int, hi: int, n: nat): (len: nat)
    ensures len <= n
    ensures 0 <= lo <= hi <= n ==> len == hi - lo
  {
    var a := SliceBound(lo, n);
    var b := SliceBound(hi, n);
    if b > a then b - a else 0
  }

  /**
   * Clamp the requested region to the image, reject it when it is empty, and
   * slice the image to it. The slice is never empty once the region passed
   * the check, so `EmptyCrop` is never the outcome.
   */
  method CropToRegion(size: ImageSize, requested: Rect) returns (outcome: CropOutcome)
    ensures outcome == (if IsEmptyRegion(Clamped(size.width, size.height, requested)) then InvalidRegion
                        else Cropped(Clamped(size.width, size.height, requested)))
    ensures outcome != EmptyCrop
    ensures outcome.Cropped? ==> 0 <= outcome.region.x1 < outcome.region.x2 <= size.width &&
                                 0 <= outcome.region.y1 < outcome.region.y2 <= size.height
  {
    var x1, y1, x2, y2 := requested.x1, requested.y1, requested.x2, requested.y2;
    x1 := Max(0, x1);
    y1 := Max(0, y1);
    x2 := Min(size.width, x2);
    y2 := Min(size.height, y2);
    if x1 >= x2 || y1 >= y2 {
      return InvalidRegion;
    }
    var rows := SliceLength(y1, y2, size.height);
    var columns := SliceLength(x1, x2, size.width);
    if rows == 0 || columns == 0 {
      return EmptyCrop;
    }
    return Cropped(Rect(x1, y1, x2, y2));
  }

  /** The configured crop needs no clamping and is rejected exactly for images narrower or lower than 2 pixels. */
  lemma ConfiguredCropRejectedIff(size: ImageSize)
    ensures Clamped(size.width, size.height, ConfiguredCrop(size)) == ConfiguredCrop(size)
    ensures IsEmptyRegion(ConfiguredCrop(size)) <==> size.width < 2 || size.height < 2
  {
    var h := size.height;
    if h >= 10 {
      assert 9 * h >= 9 * (h / 10) * 10;
      assert 9 * h / 10 >= 9 * (h / 10);
    } else if h >= 2 {
      assert h / 10 == 0;
      assert 9 * h / 10 >= 1;
    } else {
      assert 9 * h / 10 == 0;
    }
  }

  // ---------------------------------------------------------------------------
  // Joining the OCR fragments
  // ---------------------------------------------------------------------------

  /** `" ".join(fragments)`; the text is empty only for no fragments or one empty fragment. */
  function Join(fragments: seq<string>): (text: string)
    ensures text == [] <==> fragments == [] || fragments == [[]]
  {
    if fragments == [] then []
    else if |fragments| == 1 then fragments[0]
    else fragments[0] + " " + Join(fragments[1..])
  }

  // ---------------------------------------------------------------------------
  // Candidate scan: re.findall(r'\b\d+\.\d{2}\b|\b\d+\b', text)
  // ---------------------------------------------------------------------------

  predicate IsDigit(c: char) { '0' <= c <= '9' }

  /** Python's `\w` restricted to ASCII: letters, digits and underscore. */
  predicate IsWordChar(c: char) {
    IsDigit(c) || 'a' <= c <= 'z' || 'A' <= c <= 'Z' || c == '_'
  }

  predicate AllDigits(t: string) {
    forall k :: 0 <= k < |t| ==> IsDigit(t[k])
  }

  /** A match of `\d+`. */
  predicate IsInteger(t: string) {
    |t| > 0 && AllDigits(t)
  }

  /** A match of `\d+\.\d{2}`. */
  predicate IsDecimal(t: string) {
    |t| >= 4 && IsInteger(t[..|t| - 3]) && t[|t| - 3] == '.' && IsDigit(t[|t| - 2]) && IsDigit(t[|t| - 1])
  }

  predicate IsToken(t: string) {
    IsInteger(t) || IsDecimal(t)
  }

  /** The first `n` characters of `s` are a decimal and a word boundary follows them. */
  predicate DecimalAt(s: string, n: nat) {
    n <= |s| && IsDecimal(s[..n]) && (n == |s| || !IsWordChar(s[n]))
  }

  /** The first `n` characters of `s` are an integer and a word boundary follows them. */
  predicate IntegerAt(s: string, n: nat) {
    n <= |s| && IsInteger(s[..n]) && (n == |s| || !IsWordChar(s[n]))
  }

  /** Length of the run of digits that `s` starts with. */
  function DigitRun(s: string): (n: nat)
    ensures n <= |s| && AllDigits(s[..n])
    ensures n < |s| ==> !IsDigit(s[n])
  {
    if s == [] || !IsDigit(s[0]) then 0
    else
      var n := 1 + DigitRun(s[1..]);
      assert forall k :: 1 <= k < n ==> s[..n][k] == s[1..][..n - 1][k - 1];
      n
  }

  /** A prefix of digits followed by a non-digit, or by the end, is the whole digit run. */
  lemma {:induction false} DigitRunIsUnique(s: string, m: nat)
    requires m <= |s| && AllDigits(s[..m]) && (m == |s| || !IsDigit(s[m]))
    ensures DigitRun(s) == m
  {
    if m > 0 {
      assert s[..m][0] == s[0];
      assert s[1..][..m - 1] == s[..m][1..];
      DigitRunIsUnique(s[1..], m - 1);
    }
  }

  /**
   * Length of the match of the pattern at the start of `s`, or `None`;
   * `afterWord` says whether the character before `s` is a word character,
   * so that the leading `\b` fails. The decimal alternative is tried first.
   */
  function Lead(s: string, afterWord: bool): (r: Option<nat>)
    ensures r.Some? ==> !afterWord && 0 < r.value <= |s| && (DecimalAt(s, r.value) || IntegerAt(s, r.value))
  {
    if afterWord then None
    else
      var d := DigitRun(s);
      if d == 0 then None
      else if d + 3 <= |s| && s[d] == '.' && IsDigit(s[d + 1]) && IsDigit(s[d + 2])
              && (d + 3 == |s| || !IsWordChar(s[d + 3])) then
        assert s[..d + 3][..d] == s[..d];
        Some(d + 3)
      else if d == |s| || !IsWordChar(s[d]) then Some(d)
      else None
  }

  /**
   * Leftmost-alternative semantics at one position: a decimal that fits wins;
   * an integer that fits is taken when no decimal does; when neither fits
   * there is no match.
   */
  lemma LeadIsFirstFittingAlternative(s: string, n: nat)
    ensures DecimalAt(s, n) ==> Lead(s, false) == Some(n)
    ensures IntegerAt(s, n) && !DecimalAt(s, n + 3) ==> Lead(s, false) == Some(n)
    ensures Lead(s, false).None? ==> !DecimalAt(s, n) && !IntegerAt(s, n)
  {
    if DecimalAt(s, n) {
      var t := s[..n];
      assert t[..n - 3] == s[..n - 3];
      DigitRunIsUnique(s, n - 3);
    }
    if IntegerAt(s, n) {
      DigitRunIsUnique(s, n);
      if n + 3 <= |s| {
        assert s[..n + 3][..n] == s[..n];
      }
    }
  }

  /**
   * All non-overlapping matches, left to right: after a match the scan goes
   * on right after it, after a failed position one character further.
   */
  function Scan(s: string, afterWord: bool): (r: seq<string>)
    ensures forall k :: 0 <= k < |r| ==> IsToken(r[k])
    decreases |s|
  {
    if s == [] then []
    else match Lead(s, afterWord)
      case Some(n) => [s[..n]] + Scan(s[n..], IsWordChar(s[n - 1]))
      case None => Scan(s[1..], IsWordChar(s[0]))
  }

  /** The candidates `re.findall` returns on the whole text. */
  function Candidates(text: string): seq<string>
  {
    Scan(text, false)
  }

  /**
   * `t` is `s[i..j]` with a word boundary on both sides: the character before
   * (or, at the start, the one before `s`) and the one after are not word
   * characters.
   */
  predicate OccursDelimited(t: string, s: string, afterWord: bool) {
    exists i, j :: 0 <= i <= j <= |s| && s[i..j] == t &&
      (if i == 0 then !afterWord else !IsWordChar(s[i - 1])) &&
      (j == |s| || !IsWordChar(s[j]))
  }

  /** An occurrence in a suffix `s[n..]` is an occurrence in `s`. */
  lemma OccursDelimitedInSuffix(t: string, s: string, n: nat)
    requires 0 < n <= |s| && OccursDelimited(t, s[n..], IsWordChar(s[n - 1]))
    ensures OccursDelimited(t, s, false) && OccursDelimited(t, s, true)
  {
    var i, j :| 0 <= i <= j <= |s[n..]| && s[n..][i..j] == t &&
      (if i == 0 then !IsWordChar(s[n - 1]) else !IsWordChar(s[n..][i - 1])) &&
      (j == |s[n..]| || !IsWordChar(s[n..][j]));
    assert s[n + i..n + j] == t;
    assert n + i > 0 && !IsWordChar(s[n + i - 1]);
  }

  /** Every candidate is a piece of the scanned text, delimited by word boundaries. */
  lemma {:induction false} ScanFindsDelimitedSubstrings(s: string, afterWord: bool)
    ensures forall t :: t in Scan(s, afterWord) ==> OccursDelimited(t, s, afterWord)
    decreases |s|
  {
    if s != [] {
      match Lead(s, afterWord)
      case Some(n) =>
        ScanFindsDelimitedSubstrings(s[n..], IsWordChar(s[n - 1]));
        forall t | t in Scan(s, afterWord) ensures OccursDelimited(t, s, afterWord) {
          if t == s[..n] {
            assert s[0..n] == t;
          } else {
            OccursDelimitedInSuffix(t, s, n);
          }
        }
      case None =>
        ScanFindsDelimitedSubstrings(s[1..], IsWordChar(s[0]));
        forall t | t in Scan(s, afterWord) ensures OccursDelimited(t, s, afterWord) {
          OccursDelimitedInSuffix(t, s, 1);
        }
    }
  }

  /** Text without digits yields no candidates. */
  lemma {:induction false} NoDigitsNoCandidates(s: string, afterWord: bool)
    requires forall k :: 0 <= k < |s| ==> !IsDigit(s[k])
    ensures Scan(s, afterWord) == []
    decreases |s|
  {
    if s != [] {
      assert DigitRun(s) == 0;
      NoDigitsNoCandidates(s[1..], IsWordChar(s[0]));
    }
  }

  /** A scan that starts right after a word character skips a leading space and goes on as a fresh scan. */
  lemma ScanSkipsSpace(rest: string)
    ensures Scan(" " + rest, true) == Scan(rest, false)
  {
    assert (" " + rest)[1..] == rest;
  }

  /** The leading token of `t + tail`, when `tail` is empty or starts with a space, is `t` itself. */
  lemma LeadOfToken(t: string, tail: string)
    requires IsToken(t)
    requires tail == [] || tail[0] == ' '
    ensures Lead(t + tail, false) == Some(|t|)
  {
    var s := t + tail;
    assert s[..|t|] == t;
    if IsDecimal(t) {
      LeadIsFirstFittingAlternative(s, |t|);
    } else {
      assert IntegerAt(s, |t|);
      LeadIsFirstFittingAlternative(s, |t|);
    }
  }

  /** Scanning well-formed candidates joined by spaces gives back exactly those candidates. */
  lemma {:induction false} ScanOfJoinedTokens(tokens: seq<string>)
    requires forall k :: 0 <= k < |tokens| ==> IsToken(tokens[k])
    ensures Candidates(Join(tokens)) == tokens
  {
    if tokens != [] {
      var t := tokens[0];
      var tail: string := if |tokens| == 1 then [] else " " + Join(tokens[1..]);
      var s := t + tail;
      assert Join(tokens) == s;
      LeadOfToken(t, tail);
      assert s[..|t|] == t;
      assert s[|t|..] == tail;
      assert IsWordChar(s[|t| - 1]);
      assert Scan(s, false) == [s[..|t|]] + Scan(s[|t|..], IsWordChar(s[|t| - 1]));
      if |tokens| == 1 {
        assert tokens == [t];
      } else {
        ScanSkipsSpace(Join(tokens[1..]));
        ScanOfJoinedTokens(tokens[1..]);
        assert tokens == [t] + tokens[1..];
      }
    }
  }

  // ---------------------------------------------------------------------------
  // Length filter
  // ---------------------------------------------------------------------------

  predicate PlausibleLength(t: string) {
    1 <= |t| <= 7
  }

  /** The candidates of plausible length, in their original order. */
  function Plausible(candidates: seq<string>): (kept: seq<string>)
    ensures |kept| <= |candidates|
    ensures forall k :: 0 <= k < |kept| ==> PlausibleLength(kept[k])
  {
    if candidates == [] then []
    else
      var last := candidates[|candidates| - 1];
      Plausible(candidates[..|candidates| - 1]) + (if PlausibleLength(last) then [last] else [])
  }

  /** The filter keeps exactly the candidates of plausible length. */
  lemma {:induction false} PlausibleMembers(candidates: seq<string>)
    ensures forall t :: t in Plausible(candidates) <==> t in candidates && PlausibleLength(t)
  {
    if candidates != [] {
      var init := candidates[..|candidates| - 1];
      PlausibleMembers(init);
      assert candidates == init + [candidates[|candidates| - 1]];
    }
  }

  /** Filtering commutes with concatenation, so the kept candidates stay in their order. */
  lemma {:induction false} PlausibleOfConcat(a: seq<string>, b: seq<string>)
    ensures Plausible(a + b) == Plausible(a) + Plausible(b)
    decreases |b|
  {
    if b == [] {
      assert a + b == a;
    } else {
      var init := b[..|b| - 1];
      assert (a + b)[..|a + b| - 1] == a + init;
      PlausibleOfConcat(a, init);
    }
  }

  /** The append loop that builds `final_score_candidates`. */
  method KeepPlausible(candidates: seq<string>) returns (kept: seq<string>)
    ensures kept == Plausible(candidates)
    ensures forall t :: t in kept <==> t in candidates && PlausibleLength(t)
  {
    kept := [];
    var i := 0;
    while i < |candidates|
      invariant 0 <= i <= |candidates|
      invariant kept == Plausible(candidates[..i])
    {
      var candidate := candidates[i];
      assert candidates[..i + 1][..i] == candidates[..i];
      if 1 <= |candidate| <= 7 {
        kept := kept + [candidate];
      }
      i := i + 1;
    }
    assert candidates[..i] == candidates;
    PlausibleMembers(candidates);
  }

  // ---------------------------------------------------------------------------
  // Partition and choice
  // ---------------------------------------------------------------------------

  predicate HasPoint(t: string) {
    '.' in t
  }

  /** `decimal_scores` (`decimal` true) or `integer_scores` (`decimal` false), in order. */
  function OfKind(kept: seq<string>, decimal: bool): (r: seq<string>)
    ensures |r| <= |kept|
    ensures forall k :: 0 <= k < |r| ==> HasPoint(r[k]) == decimal
  {
    if kept == [] then []
    else if HasPoint(kept[0]) == decimal then [kept[0]] + OfKind(kept[1..], decimal)
    else OfKind(kept[1..], decimal)
  }

  /** Each list is built in candidate order: the comprehension distributes over concatenation. */
  lemma {:induction false} OfKindOfConcat(a: seq<string>, b: seq<string>, decimal: bool)
    ensures OfKind(a + b, decimal) == OfKind(a, decimal) + OfKind(b, decimal)
  {
    if a != [] {
      assert (a + b)[0] == a[0];
      assert (a + b)[1..] == a[1..] + b;
      OfKindOfConcat(a[1..], b, decimal);
    } else {
      assert a + b == b;
    }
  }

  /** The two lists split the kept candidates: every candidate goes to exactly one of them. */
  lemma {:induction false} OfKindPartitions(kept: seq<string>)
    ensures multiset(OfKind(kept, true)) + multiset(OfKind(kept, false)) == multiset(kept)
    ensures forall t, d :: t in OfKind(kept, d) <==> t in kept && HasPoint(t) == d
  {
    if kept != [] {
      OfKindPartitions(kept[1..]);
      assert kept == [kept[0]] + kept[1..];
    }
  }

  /** `xs[k]` is the first element of `xs` of maximal length. */
  predicate IsFirstLongest(xs: seq<string>, k: nat) {
    k < |xs| &&
    (forall j :: 0 <= j < |xs| ==> |xs[j]| <= |xs[k]|) &&
    (forall j :: 0 <= j < k ==> |xs[j]| < |xs[k]|)
  }

  /** Python's `max(xs, key=len)`: scan left to right, replacing the best only on a strictly longer element. */
  function LongestIndex(xs: seq<string>): (k: nat)
    requires |xs| > 0
    ensures IsFirstLongest(xs, k)
  {
    if |xs| == 1 then 0
    else
      var k := LongestIndex(xs[..|xs| - 1]);
      if |xs[|xs| - 1]| > |xs[k]| then |xs| - 1 else k
  }

  /** `kept[i]` is the first candidate of maximal length among those of the given kind. */
  predicate IsFirstLongestOfKind(kept: seq<string>, i: nat, decimal: bool) {
    i < |kept| && HasPoint(kept[i]) == decimal &&
    (forall j :: 0 <= j < |kept| && HasPoint(kept[j]) == decimal ==> |kept[j]| <= |kept[i]|) &&
    (forall j :: 0 <= j < i && HasPoint(kept[j]) == decimal ==> |kept[j]| < |kept[i]|)
  }

  /**
   * What the reader answers for the kept candidates: the first longest
   * decimal if there is a decimal, else the first longest integer, and the
   * "no suitable score" message when nothing was kept.
   */
  ghost predicate IsChosenScore(kept: seq<string>, score: string) {
    if kept == [] then score == NO_SUITABLE_SCORE
    else if exists i :: 0 <= i < |kept| && HasPoint(kept[i]) then
      exists i: nat :: IsFirstLongestOfKind(kept, i, true) && score == kept[i]
    else
      exists i: nat :: IsFirstLongestOfKind(kept, i, false) && score == kept[i]
  }

  /** A first longest candidate of the tail stays one, one place further, when the head does not compete. */
  lemma FirstLongestOfKindShift(kept: seq<string>, i: nat, decimal: bool)
    requires kept != [] && IsFirstLongestOfKind(kept[1..], i, decimal)
    requires HasPoint(kept[0]) == decimal ==> |kept[0]| < |kept[i + 1]|
    ensures IsFirstLongestOfKind(kept, i + 1, decimal)
  {
    assert forall j :: 1 <= j < |kept| ==> kept[j] == kept[1..][j - 1];
  }

  /** The head is the first longest candidate of its kind when no candidate of that kind in the tail is longer. */
  lemma FirstLongestOfKindHead(kept: seq<string>, decimal: bool)
    requires kept != [] && HasPoint(kept[0]) == decimal
    requires forall m :: 0 <= m < |OfKind(kept[1..], decimal)| ==> |OfKind(kept[1..], decimal)[m]| <= |kept[0]|
    ensures IsFirstLongestOfKind(kept, 0, decimal)
  {
    var ys := OfKind(kept[1..], decimal);
    OfKindPartitions(kept[1..]);
    forall j | 0 <= j < |kept| && HasPoint(kept[j]) == decimal
      ensures |kept[j]| <= |kept[0]|
    {
      if j > 0 {
        assert kept[j] == kept[1..][j - 1];
        assert kept[j] in ys;
      }
    }
  }

  /** Past a shorter head, the first longest element is the first longest of the tail. */
  lemma FirstLongestOfTail(xs: seq<string>, k: nat)
    requires 0 < k && IsFirstLongest(xs, k)
    ensures IsFirstLongest(xs[1..], k - 1) && |xs[0]| < |xs[k]|
  {
    assert forall m :: 0 <= m < |xs| - 1 ==> xs[1..][m] == xs[m + 1];
  }

  /** The first longest element of one kind's list is the first longest candidate of that kind. */
  lemma {:induction false} FirstLongestOfKind(kept: seq<string>, decimal: bool, k: nat)
    requires IsFirstLongest(OfKind(kept, decimal), k)
    ensures exists i: nat :: IsFirstLongestOfKind(kept, i, decimal) && kept[i] == OfKind(kept, decimal)[k]
  {
    var c, rest := kept[0], kept[1..];
    var xs, ys := OfKind(kept, decimal), OfKind(rest, decimal);
    if HasPoint(c) != decimal {
      assert xs == ys;
      FirstLongestOfKind(rest, decimal, k);
      var i: nat :| IsFirstLongestOfKind(rest, i, decimal) && rest[i] == ys[k];
      FirstLongestOfKindShift(kept, i, decimal);
    } else {
      assert xs == [c] + ys;
      if k == 0 {
        assert forall m :: 0 <= m < |ys| ==> ys[m] == xs[m + 1];
        FirstLongestOfKindHead(kept, decimal);
      } else {
        FirstLongestOfTail(xs, k);
        assert xs[1..] == ys;
        FirstLongestOfKind(rest, decimal, k - 1);
        var i: nat :| IsFirstLongestOfKind(rest, i, decimal) && rest[i] == ys[k - 1];
        FirstLongestOfKindShift(kept, i, decimal);
      }
    }
  }

  /** The specification leaves no choice: at most one score is the chosen one. */
  lemma ChosenScoreIsUnique(kept: seq<string>, a: string, b: string)
    requires IsChosenScore(kept, a) && IsChosenScore(kept, b)
    ensures a == b
  {
    if kept != [] {
      var d := exists i :: 0 <= i < |kept| && HasPoint(kept[i]);
      var i: nat :| IsFirstLongestOfKind(kept, i, d) && a == kept[i];
      var j: nat :| IsFirstLongestOfKind(kept, j, d) && b == kept[j];
      assert !(i < j) && !(j < i);
    }
  }

  /** Lines 129 to 143: default to the message, then prefer the longest decimal, then the longest integer. */
  method SelectScore(kept: seq<string>) returns (score: string)
    ensures IsChosenScore(kept, score)
    ensures kept != [] ==> score in kept
  {
    score := NO_SUITABLE_SCORE;
    if |kept| > 0 {
      var decimalScores := OfKind(kept, true);
      var integerScores := OfKind(kept, false);
      OfKindPartitions(kept);
      if |decimalScores| > 0 {
        var k := LongestIndex(decimalScores);
        score := decimalScores[k];
        FirstLongestOfKind(kept, true, k);
        assert decimalScores[k] in kept;
      } else if |integerScores| > 0 {
        var k := LongestIndex(integerScores);
        score := integerScores[k];
        FirstLongestOfKind(kept, false, k);
        assert integerScores[k] in kept;
      }
    }
  }

  /** A score the reader picks is a kept, well-formed candidate of the text, never the message. */
  lemma ChosenScoreIsCandidate(text: string, score: string)
    requires IsChosenScore(Plausible(Candidates(text)), score)
    requires Plausible(Candidates(text)) != []
    ensures score in Plausible(Candidates(text))
    ensures IsToken(score) && PlausibleLength(score) && OccursDelimited(score, text, false)
    ensures score != NO_SUITABLE_SCORE
  {
    var kept := Plausible(Candidates(text));
    var d := exists i :: 0 <= i < |kept| && HasPoint(kept[i]);
    var i: nat :| IsFirstLongestOfKind(kept, i, d) && score == kept[i];
    PlausibleMembers(Candidates(text));
    ScanFindsDelimitedSubstrings(text, false);
    assert score in Candidates(text);
  }

  // ---------------------------------------------------------------------------
  // The whole reader
  // ---------------------------------------------------------------------------

  /**
   * `read_game_score_custom_crop`: `image` is `None` when the file is missing
   * or unreadable; `recognised` is `None` when the OCR step raised.
   */
  method ReadGameScore(image: Option<ImageSize>, recognised: Option<seq<string>>) returns (result: Option<string>)
    ensures image.None? ==> result.None?
    ensures image.Some? ==> (result == Some(INVALID_CROP_REGION) <==> image.value.width < 2 || image.value.height < 2)
    ensures result != Some(EMPTY_CROPPED_IMAGE)
    ensures image.Some? && image.value.width >= 2 && image.value.height >= 2 ==>
              match recognised
              case None => result.None?
              case Some(fragments) =>
                var text := Join(fragments);
                var kept := Plausible(Candidates(text));
                if text == [] then result == Some(NO_TEXT_FOUND)
                else
                  && result.Some? && IsChosenScore(kept, result.value)
                  && (result.value == NO_SUITABLE_SCORE <==> kept == [])
                  && (kept != [] ==> IsToken(result.value) && PlausibleLength(result.value)
                                     && OccursDelimited(result.value, text, false))
  {
    if image.None? {
      return None;
    }
    var size := image.value;
    ConfiguredCropRejectedIff(size);
    var crop := CropToRegion(size, ConfiguredCrop(size));
    if crop == InvalidRegion {
      return Some(INVALID_CROP_REGION);
    }
    if crop == EmptyCrop {
      return Some(EMPTY_CROPPED_IMAGE);
    }
    if recognised.None? {
      return None;
    }
    var text := Join(recognised.value);
    if text == [] {
      return Some(NO_TEXT_FOUND);
    }
    var candidates := Candidates(text);
    var kept := KeepPlausible(candidates);
    var score := SelectScore(kept);
    if kept != [] {
      ChosenScoreIsCandidate(text, score);
    }
    return Some(score);
  }

  // ---------------------------------------------------------------------------
  // Worked examples
  // ---------------------------------------------------------------------------

  /** A point followed by one digit is no decimal: "1000.0" yields the integers "1000" and "0". */
  lemma OneFractionDigitIsNoDecimal()
    ensures Candidates("1000.0") == ["1000", "0"]
  {
    var s := "1000.0";
    assert s[..4] == "1000" && IsInteger("1000");
    LeadIsFirstFittingAlternative(s, 4);
    assert s[4..] == ".0" && ".0"[1..] == "0";
    assert "0"[..1] == "0" && IsInteger("0");
    LeadIsFirstFittingAlternative("0", 1);
  }

  /** "99999.99" is well formed but 8 characters long, so nothing is kept. */
  lemma EightCharactersAreDropped()
    ensures Candidates("99999.99") == ["99999.99"]
    ensures Plausible(Candidates("99999.99")) == []
  {
    var s := "99999.99";
    assert s[..8] == s && s[..5] == "99999" && IsInteger("99999") && IsDecimal(s);
    LeadIsFirstFittingAlternative(s, 8);
    assert Plausible([s]) == Plausible([]) + [];
  }

  /** The line "1234567 1.00" yields both numbers. */
  lemma IntegerAndDecimalAreScanned()
    ensures Candidates("1234567 1.00") == ["1234567", "1.00"]
  {
    var kept := ["1234567", "1.00"];
    assert "1.00"[..1] == "1";
    assert IsToken(kept[0]) && IsToken(kept[1]);
    assert Join(kept) == "1234567 1.00";
    ScanOfJoinedTokens(kept);
  }

  /** The numbers "603" and "1000.00" of the reader's comments are both found. */
  lemma SourceExampleIsScanned()
    ensures Candidates("603 1000.00") == ["603", "1000.00"]
  {
    var tokens := ["603", "1000.00"];
    assert "1000.00"[..4] == "1000";
    assert IsToken(tokens[0]) && IsToken(tokens[1]);
    assert Join(tokens) == "603 1000.00";
    ScanOfJoinedTokens(tokens);
  }

  /** Both are short enough to be kept. */
  lemma IntegerAndDecimalAreKept()
    ensures Plausible(["1234567", "1.00"]) == ["1234567", "1.00"]
  {
    var kept := ["1234567", "1.00"];
    assert kept[..1] == [kept[0]];
  }

  /** A decimal beats a longer integer: of "1234567" and "1.00" the reader answers "1.00". */
  lemma DecimalBeatsLongerInteger()
    ensures IsChosenScore(["1234567", "1.00"], "1.00")
  {
    var kept := ["1234567", "1.00"];
    assert !HasPoint(kept[0]) && HasPoint(kept[1]);
    assert IsFirstLongestOfKind(kept, 1, true);
  }
}
