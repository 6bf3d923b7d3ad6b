/**
 * The text side of the plate server that crops detected plates out of a real photo: the
 * clamp of each crop to the image, the clean-up of each OCR string (whitespace removal, then
 * `fix_plate_text`), and the `ocr_process` filter that keeps only strings shaped like a
 * Russian plate (`is_rus_plate`, a regular expression). Detection and OCR are inputs.
 */
module RealPlateServer {
  import opened Common
  import opened PyStr
  import opened PlateAccess

  // ---------------------------------------------------------------- fix_plate_text

  /** The replacements of `fix_plate_text`, in the dictionary's iteration order. */
  const REPLACES: seq<(char, char)> := [('O', '0'), ('Q', '0'), ('I', '1'), ('Z', '2'), ('B', '8')]

  /** What `fix_plate_text` does to one character. */
  function FixChar(c: char): char {
    if c == 'O' || c == 'Q' then '0'
    else if c == 'I' then '1'
    else if c == 'Z' then '2'
    else if c == 'B' then '8'
    else c
  }

  /** One character after the first `k` replacements have been applied in turn. */
  function ApplyReplaces(c: char, k: nat): char
    requires k <= |REPLACES|
  {
    if k == 0 then c
    else
      var d := ApplyReplaces(c, k - 1);
      if d == REPLACES[k - 1].0 then REPLACES[k - 1].1 else d
  }

  /** Applying the replacements one after another acts character by character as `FixChar`. */
  lemma ApplyAllReplaces(c: char)
    ensures ApplyReplaces(c, |REPLACES|) == FixChar(c)
  {
    assert ApplyReplaces(c, 1) == if c == 'O' then '0' else c;
    assert ApplyReplaces(c, 2) == if c == 'O' || c == 'Q' then '0' else c;
    assert ApplyReplaces(c, 3) == if c == 'O' || c == 'Q' then '0' else if c == 'I' then '1' else c;
    assert ApplyReplaces(c, 4) == if c == 'O' || c == 'Q' then '0' else if c == 'I' then '1' else if c == 'Z' then '2' else c;
  }

  predicate IsReplaced(c: char) {
    c == 'O' || c == 'Q' || c == 'I' || c == 'Z' || c == 'B'
  }

  /** The text `fix_plate_text` returns, character by character. */
  function FixedText(s: string): (r: string)
    ensures |r| == |s|
    ensures forall i :: 0 <= i < |s| ==> r[i] == FixChar(s[i])
  {
    seq(|s|, i requires 0 <= i < |s| => FixChar(s[i]))
  }

  /** `fix_plate_text`: one `str.replace` per dictionary entry. */
  method FixPlateText(text: string) returns (r: string)
    ensures r == FixedText(text)
  {
    r := text;
    var k := 0;
    while k < |REPLACES|
      invariant 0 <= k <= |REPLACES| && |r| == |text|
      invariant forall i :: 0 <= i < |text| ==> r[i] == ApplyReplaces(text[i], k)
    {
      r := ReplaceChar(r, REPLACES[k].0, REPLACES[k].1);
      k := k + 1;
    }
    forall i | 0 <= i < |text|
      ensures r[i] == FixedText(text)[i]
    {
      ApplyAllReplaces(text[i]);
    }
  }

  /** The fixed text contains none of O, Q, I, Z, B, keeps every other character, and fixing it again changes nothing. */
  lemma FixedTextProperties(s: string)
    ensures forall i :: 0 <= i < |s| ==> !IsReplaced(FixedText(s)[i])
    ensures forall i :: 0 <= i < |s| && !IsReplaced(s[i]) ==> FixedText(s)[i] == s[i]
    ensures FixedText(FixedText(s)) == FixedText(s)
  {
    var f := FixedText(s);
    assert forall i :: 0 <= i < |f| ==> FixedText(f)[i] == FixChar(FixChar(s[i])) == f[i];
  }

  // ---------------------------------------------------------------- is_rus_plate

  /** The letters of `RUS_LETTERS`: the Latin look-alikes of the Cyrillic plate letters. */
  predicate IsPlateLetter(c: char) {
    c == 'A' || c == 'B' || c == 'E' || c == 'K' || c == 'M' || c == 'H' ||
    c == 'O' || c == 'P' || c == 'C' || c == 'T' || c == 'Y' || c == 'X'
  }

  /** `\d`, restricted to the ASCII digits. */
  predicate IsDigit(c: char) {
    '0' <= c <= '9'
  }

  datatype CharClass = PlateLetters | Digits

  predicate InClass(c: char, cls: CharClass) {
    match cls
    case PlateLetters => IsPlateLetter(c)
    case Digits => IsDigit(c)
  }

  /** A character class repeated between `lo` and `hi` times: `[...]{lo,hi}`. */
  datatype Piece = Piece(cls: CharClass, lo: nat, hi: nat)

  /** `RUS_PLATE_REGEX`: `[ABEKMHOPCTYX]\d{3}[ABEKMHOPCTYX]{2}\d{2,3}`. */
  const RUS_PLATE_PATTERN: seq<Piece> :=
    [Piece(PlateLetters, 1, 1), Piece(Digits, 3, 3), Piece(PlateLetters, 2, 2), Piece(Digits, 2, 3)]

  predicate AllIn(s: string, cls: CharClass) {
    forall i :: 0 <= i < |s| ==> InClass(s[i], cls)
  }

  /** `re.fullmatch` of a sequence of repeated classes: some split of `t` gives each piece an allowed count. */
  predicate FullMatch(pat: seq<Piece>, t: string)
    decreases |pat|, 1, 0
  {
    if pat == [] then t == [] else TryCounts(pat, t, pat[0].lo)
  }

  /** Backtracking over the repeat counts `n`, `n + 1`, ..., `hi` of the first piece. */
  predicate TryCounts(pat: seq<Piece>, t: string, n: nat)
    requires pat != []
    decreases |pat|, 0, if n <= pat[0].hi then pat[0].hi - n + 1 else 0
  {
    if n > pat[0].hi || n > |t| then false
    else (AllIn(t[..n], pat[0].cls) && FullMatch(pat[1..], t[n..])) || TryCounts(pat, t, n + 1)
  }

  /** `is_rus_plate`. */
  predicate IsRusPlate(t: string) {
    FullMatch(RUS_PLATE_PATTERN, t)
  }

  /** The shape of a plate written out: a letter, three digits, two letters, two or three digits. */
  predicate PlateShape(t: string) {
    (|t| == 8 || |t| == 9) &&
    IsPlateLetter(t[0]) && IsDigit(t[1]) && IsDigit(t[2]) && IsDigit(t[3]) &&
    IsPlateLetter(t[4]) && IsPlateLetter(t[5]) &&
    forall i :: 6 <= i < |t| ==> IsDigit(t[i])
  }

  lemma {:induction false} TryCountsSpec(pat: seq<Piece>, t: string, n: nat)
    requires pat != []
    ensures TryCounts(pat, t, n) <==>
            exists m :: n <= m <= pat[0].hi && m <= |t| && AllIn(t[..m], pat[0].cls) && FullMatch(pat[1..], t[m..])
    decreases if n <= pat[0].hi then pat[0].hi - n + 1 else 0
  {
    if n <= pat[0].hi && n <= |t| {
      TryCountsSpec(pat, t, n + 1);
      if TryCounts(pat, t, n + 1) {
        var m :| n + 1 <= m <= pat[0].hi && m <= |t| && AllIn(t[..m], pat[0].cls) && FullMatch(pat[1..], t[m..]);
        assert n <= m;
      }
    }
  }

  /** A piece with a single count consumes exactly that many characters of its class. */
  lemma FixedPiece(p: Piece, rest: seq<Piece>, t: string)
    requires p.lo == p.hi
    ensures FullMatch([p] + rest, t) <==> p.lo <= |t| && AllIn(t[..p.lo], p.cls) && FullMatch(rest, t[p.lo..])
  {
    var pat := [p] + rest;
    assert pat[1..] == rest;
    TryCountsSpec(pat, t, p.lo);
  }

  /** The last piece of the pattern: two or three digits and nothing after them. */
  lemma LastPiece(t: string)
    ensures FullMatch([Piece(Digits, 2, 3)], t) <==> (|t| == 2 || |t| == 3) && AllIn(t, Digits)
  {
    var pat := [Piece(Digits, 2, 3)];
    assert pat[0].hi == 3 && pat[1..] == [];
    assert !TryCounts(pat, t, 4);
    assert TryCounts(pat, t, 3) <==> 3 <= |t| && AllIn(t[..3], Digits) && t[3..] == [];
    assert TryCounts(pat, t, 2) <==> (2 <= |t| && AllIn(t[..2], Digits) && t[2..] == []) || TryCounts(pat, t, 3);
    if 2 <= |t| <= 3 {
      assert t[..|t|] == t;
    }
  }

  /** `is_rus_plate` accepts exactly the plate shape; in particular a plate has 8 or 9 characters. */
  lemma IsRusPlateShape(t: string)
    ensures IsRusPlate(t) <==> PlateShape(t)
    ensures IsRusPlate(t) ==> |t| == 8 || |t| == 9
  {
    var p0, p1, p2, p3 := RUS_PLATE_PATTERN[0], RUS_PLATE_PATTERN[1], RUS_PLATE_PATTERN[2], RUS_PLATE_PATTERN[3];
    assert RUS_PLATE_PATTERN == [p0] + [p1, p2, p3];
    assert [p1, p2, p3] == [p1] + [p2, p3];
    assert [p2, p3] == [p2] + [p3];
    FixedPiece(p0, [p1, p2, p3], t);
    if 1 <= |t| {
      FixedPiece(p1, [p2, p3], t[1..]);
      if 3 <= |t[1..]| {
        FixedPiece(p2, [p3], t[1..][3..]);
        if 2 <= |t[1..][3..]| {
          assert t[1..][3..][2..] == t[6..];
          LastPiece(t[6..]);
          assert t[1..][3..][..2] == t[4..6];
          assert t[1..][..3] == t[1..4];
        }
      }
    }
    if PlateShape(t) {
      assert AllIn(t[..1], PlateLetters);
      assert AllIn(t[1..4], Digits);
      assert AllIn(t[4..6], PlateLetters);
      assert AllIn(t[6..], Digits);
    }
    if IsRusPlate(t) {
      assert AllIn(t[6..], Digits);
      assert forall i :: 6 <= i < |t| ==> t[i] == t[6..][i - 6];
    }
  }

  /** The plates the server can recognise are written in Latin letters, so none is literally an admitted (Cyrillic) plate. */
  lemma RusPlateNeverAllowed(t: string)
    requires IsRusPlate(t)
    ensures t !in ALLOWED_NUMBERS
  {
    IsRusPlateShape(t);
    assert !IsPlateLetter(ALLOWED_NUMBERS[0][0]) && !IsPlateLetter(ALLOWED_NUMBERS[1][0]) &&
           !IsPlateLetter(ALLOWED_NUMBERS[2][0]) && !IsPlateLetter(ALLOWED_NUMBERS[3][0]) &&
           !IsPlateLetter(ALLOWED_NUMBERS[4][0]) && !IsPlateLetter(ALLOWED_NUMBERS[5][0]);
  }

  // ---------------------------------------------------------------- ocr_real_plate and ocr_process

  /** A detected plate rectangle, as `detectMultiScale` reports it. */
  datatype Box = Box(x: int, y: int, w: int, h: int)

  /** The width and height of a decoded photo, in pixels. */
  datatype Dims = Dims(width: nat, height: nat)

  /** A crop rectangle `gray[y1:y2, x1:x2]`. */
  datatype Crop = Crop(x1: int, y1: int, x2: int, y2: int)

  const PAD := 15

  function Max(a: int, b: int): int {
    if a < b then b else a
  }

  function Min(a: int, b: int): int {
    if a < b then a else b
  }

  /** The padded crop of a detection, clamped to an image of `width` by `height` pixels. */
  function CropBox(b: Box, width: nat, height: nat): (c: Crop)
    ensures 0 <= c.x1 && c.x2 <= width && 0 <= c.y1 && c.y2 <= height
    ensures b.x >= 0 ==> c.x1 <= b.x
    ensures b.y >= 0 ==> c.y1 <= b.y
    ensures b.x + b.w <= width ==> b.x + b.w <= c.x2
    ensures b.y + b.h <= height ==> b.y + b.h <= c.y2
    ensures 0 <= b.x <= width && 0 <= b.w ==> c.x1 <= c.x2
    ensures 0 <= b.y <= height && 0 <= b.h ==> c.y1 <= c.y2
    ensures 0 <= b.x < width && 0 < b.w ==> c.x1 < c.x2
    ensures 0 <= b.y < height && 0 < b.h ==> c.y1 < c.y2
  {
    Crop(Max(0, b.x - PAD), Max(0, b.y - PAD), Min(width, b.x + b.w + PAD), Min(height, b.y + b.h + PAD))
  }

  /** One OCR string after `re.sub(r"\s+", "", text)` and `fix_plate_text`. */
  function CleanText(t: string): (r: string)
    ensures |r| <= |t|
    ensures forall i :: 0 <= i < |r| ==> !IsSpace(r[i]) && !IsReplaced(r[i])
  {
    var f := FixedText(RemoveSpaces(t));
    FixedTextProperties(RemoveSpaces(t));
    f
  }

  /** The non-empty cleaned strings among the first `n` OCR strings, in detection order. */
  function CleanTexts(texts: seq<string>, n: nat): (rs: seq<string>)
    requires n <= |texts|
    ensures |rs| <= n
    ensures forall i :: 0 <= i < |rs| ==> rs[i] != []
  {
    if n == 0 then []
    else
      var c := CleanText(texts[n - 1]);
      CleanTexts(texts, n - 1) + (if c != [] then [c] else [])
  }

  /** The body of the detection loop for one OCR string: whitespace removal, then `fix_plate_text`. */
  method ReadPlate(raw: string) returns (text: string)
    ensures text == CleanText(raw)
  {
    var stripped := RemoveSpaces(raw);
    text := FixPlateText(stripped);
  }

  /** After `k` detections: their crops are in `crops`, and `results` holds their non-empty cleaned strings. */
  ghost predicate Scanned(boxes: seq<Box>, ocr: seq<string>, width: nat, height: nat, k: nat,
                          results: seq<string>, crops: seq<Crop>)
  {
    |ocr| == |boxes| && k <= |boxes| && |crops| == k &&
    results == CleanTexts(ocr, k) &&
    forall i :: 0 <= i < k ==> crops[i] == CropBox(boxes[i], width, height)
  }

  /**
   * `ocr_real_plate`: `size` is the decoded photo's width and height (`None` when `cv2.imread`
   * fails), `boxes` the detections and `ocr[i]` what Tesseract reads in the crop of `boxes[i]`.
   * It returns the cleaned strings and the crops handed to the image pipeline.
   */
  method OcrRealPlate(size: Option<Dims>, boxes: seq<Box>, ocr: seq<string>)
    returns (results: seq<string>, crops: seq<Crop>)
    requires |ocr| == |boxes|
    ensures size.None? ==> results == [] && crops == []
    ensures size.Some? ==> results == CleanTexts(ocr, |ocr|) && |crops| == |boxes| &&
                           forall i :: 0 <= i < |boxes| ==> crops[i] == CropBox(boxes[i], size.value.width, size.value.height)
  {
    if size.None? {
      return [], [];
    }
    var width, height := size.value.width, size.value.height;
    results, crops := [], [];
    var k := 0;
    while k < |boxes|
      invariant Scanned(boxes, ocr, width, height, k, results, crops)
    {
      var crop := CropBox(boxes[k], width, height);
      var text := ReadPlate(ocr[k]);
      crops := crops + [crop];
      if text != [] {
        results := results + [text];
      }
      k := k + 1;
    }
  }

  /** `ocr_process`: the OCR strings that pass `is_rus_plate`, in order. */
  function PlatesOnly(texts: seq<string>): (rs: seq<string>)
    ensures IsSubsequence(rs, texts)
    ensures forall i :: 0 <= i < |rs| ==> IsRusPlate(rs[i])
    ensures forall t :: t in texts && IsRusPlate(t) ==> t in rs
  {
    if texts == [] then []
    else
      var rest := PlatesOnly(texts[1..]);
      assert texts == [texts[0]] + texts[1..];
      if IsRusPlate(texts[0]) then
        assert ([texts[0]] + rest)[1..] == rest;
        [texts[0]] + rest
      else
        rest
  }

  /** Filtering distributes over concatenation: each string is kept or dropped on its own. */
  lemma {:induction false} PlatesOnlyConcat(a: seq<string>, b: seq<string>)
    ensures PlatesOnly(a + b) == PlatesOnly(a) + PlatesOnly(b)
    decreases |a|
  {
    if a != [] {
      assert (a + b)[1..] == a[1..] + b;
      PlatesOnlyConcat(a[1..], b);
    } else {
      assert a + b == b;
    }
  }

  lemma PlatesOnlySingle(t: string)
    ensures PlatesOnly([t]) == if IsRusPlate(t) then [t] else []
  {
    assert [t][1..] == [];
  }

  /** Every copy of a plate is kept, repeats included, and no other string survives. */
  lemma {:induction false} PlatesOnlyCounts(texts: seq<string>, t: string)
    ensures multiset(PlatesOnly(texts))[t] == if IsRusPlate(t) then multiset(texts)[t] else 0
    decreases |texts|
  {
    if texts != [] {
      PlatesOnlyCounts(texts[1..], t);
      assert texts == [texts[0]] + texts[1..];
      assert multiset(texts) == multiset([texts[0]]) + multiset(texts[1..]);
      if IsRusPlate(texts[0]) {
        assert PlatesOnly(texts) == [texts[0]] + PlatesOnly(texts[1..]);
        assert multiset(PlatesOnly(texts)) == multiset([texts[0]]) + multiset(PlatesOnly(texts[1..]));
      }
    }
  }

  /**
   * On this server a match is never exact: the admitted plates are Cyrillic and the OCR output
   * Latin, so `match_allowed` always falls back to the fuzzy matcher.
   */
  lemma RealPlateMatchIsFuzzy(texts: seq<string>, closest: Closest)
    requires OracleSound(closest)
    ensures FirstExact(PlatesOnly(texts)).None?
    ensures MatchAllowed(PlatesOnly(texts), closest).allowed <==>
            exists i :: 0 <= i < |PlatesOnly(texts)| && closest(PlatesOnly(texts)[i]).Some?
  {
    var ps := PlatesOnly(texts);
    forall i | 0 <= i < |ps| ensures ps[i] !in ALLOWED_NUMBERS {
      RusPlateNeverAllowed(ps[i]);
    }
    MatchFallsBack(ps, closest);
  }

  /** Fixing maps B to 8 and O to 0, so a recognised plate uses only the other ten letters. */
  lemma RecognisedPlateLetters(ocr: seq<string>, i: nat)
    requires i < |PlatesOnly(CleanTexts(ocr, |ocr|))|
    ensures var t := PlatesOnly(CleanTexts(ocr, |ocr|))[i];
            t[0] != 'B' && t[0] != 'O' && t[4] != 'B' && t[4] != 'O' && t[5] != 'B' && t[5] != 'O'
  {
    var ps := PlatesOnly(CleanTexts(ocr, |ocr|));
    var t := ps[i];
    IsRusPlateShape(t);
    SubsequenceMembers(ps, CleanTexts(ocr, |ocr|));
    assert t in ps;
    CleanTextsMembers(ocr, |ocr|, t);
  }

  lemma {:induction false} CleanTextsMembers(texts: seq<string>, n: nat, t: string)
    requires n <= |texts| && t in CleanTexts(texts, n)
    ensures forall j :: 0 <= j < |t| ==> !IsReplaced(t[j])
    decreases n
  {
    var c := CleanText(texts[n - 1]);
    if !(c != [] && t == c) {
      CleanTextsMembers(texts, n - 1, t);
    }
  }
}
