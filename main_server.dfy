/**
 * The text post-processing of the alternate plate server's `ocr_process`: each word Tesseract
 * reports is stripped, common Latin misreadings are corrected, everything outside the plate
 * alphabet is removed, empty words are dropped, duplicates are removed keeping first
 * occurrences, and at most five words are returned. The Tesseract call is an input.
 */
module MainServer {
  import opened Common
  import opened PyStr
  import opened PlateAccess

  /** How many candidates `ocr_process` returns at most. */
  const MAX_CANDIDATES := 5

  /** The Cyrillic plate letters АВЕКМНОРСТУХ of the whitelist. */
  predicate IsCyrillicPlateLetter(c: char) {
    c == '\U{410}' || c == '\U{412}' || c == '\U{415}' || c == '\U{41A}' || c == '\U{41C}' || c == '\U{41D}' ||
    c == '\U{41E}' || c == '\U{420}' || c == '\U{421}' || c == '\U{422}' || c == '\U{423}' || c == '\U{425}'
  }

  /** The class `[АВЕКМНОРСТУХ0-9]`. */
  predicate IsPlateChar(c: char) {
    IsCyrillicPlateLetter(c) || '0' <= c <= '9'
  }

  /** `re.sub(r'[^АВЕКМНОРСТУХ0-9]', '', s)`: the whitelisted characters of `s`, in order. */
  function KeepPlateChars(s: string): (r: string)
    ensures |r| <= |s|
    ensures forall i :: 0 <= i < |r| ==> IsPlateChar(r[i])
  {
    if s == [] then []
    else
      var rest := KeepPlateChars(s[1..]);
      if IsPlateChar(s[0]) then [s[0]] + rest else rest
  }

  /** The whitelist keeps exactly the plate characters of `s`, and no other character. */
  lemma {:induction false} KeepPlateCharsMembers(s: string)
    ensures forall c :: c in KeepPlateChars(s) <==> c in s && IsPlateChar(c)
    decreases |s|
  {
    if s != [] {
      KeepPlateCharsMembers(s[1..]);
      assert s == [s[0]] + s[1..];
    }
  }

  /** `t.replace('N','М').replace('I','1').replace('O','0')`, the Latin `N` becoming the Cyrillic `М`. */
  function Substitute(t: string): string {
    ReplaceChar(ReplaceChar(ReplaceChar(t, 'N', '\U{41C}'), 'I', '1'), 'O', '0')
  }

  /** One word after stripping, correction and whitelisting (empty when nothing is left). */
  function CleanToken(raw: string): (r: string)
    ensures forall j :: 0 <= j < |r| ==> IsPlateChar(r[j])
  {
    KeepPlateChars(Substitute(Strip(raw)))
  }

  /** The corrections turn the misread Latin letters into plate characters, keeping every other character. */
  lemma SubstituteSpec(t: string)
    ensures |Substitute(t)| == |t|
    ensures forall i :: 0 <= i < |t| ==>
              Substitute(t)[i] == (if t[i] == 'N' then '\U{41C}' else if t[i] == 'I' then '1' else if t[i] == 'O' then '0' else t[i])
  {
  }

  /** The kept words among the first `n` reported: cleaned, non-empty, in order. */
  function CleanTokens(words: seq<string>, n: nat): (ws: seq<string>)
    requires n <= |words|
    ensures |ws| <= n
  {
    if n == 0 then []
    else
      var c := CleanToken(words[n - 1]);
      CleanTokens(words, n - 1) + (if c != [] then [c] else [])
  }

  /** Non-empty words over the plate alphabet. */
  ghost predicate PlateWords(ws: seq<string>) {
    forall i :: 0 <= i < |ws| ==> ws[i] != [] && forall j :: 0 <= j < |ws[i]| ==> IsPlateChar(ws[i][j])
  }

  /** Every kept word is a non-empty string over the plate alphabet. */
  lemma {:induction false} CleanTokensAlphabet(words: seq<string>, n: nat)
    requires n <= |words|
    ensures PlateWords(CleanTokens(words, n))
    decreases n
  {
    if n > 0 {
      CleanTokensAlphabet(words, n - 1);
      PlateWordsSnoc(CleanTokens(words, n - 1), CleanToken(words[n - 1]));
    }
  }

  lemma PlateWordsSnoc(ws: seq<string>, c: string)
    requires PlateWords(ws) && forall j :: 0 <= j < |c| ==> IsPlateChar(c[j])
    ensures PlateWords(ws + (if c != [] then [c] else []))
  {
    var r := ws + (if c != [] then [c] else []);
    forall i | 0 <= i < |r|
      ensures r[i] != [] && forall j :: 0 <= j < |r[i]| ==> IsPlateChar(r[i][j])
    {
      if i < |ws| {
        assert r[i] == ws[i];
      } else {
        assert r[i] == c;
      }
    }
  }

  /** `list(dict.fromkeys(s))`: the first occurrence of every element, in order. */
  function Dedupe(s: seq<string>): (d: seq<string>)
    ensures |d| <= |s|
  {
    if s == [] then []
    else
      var p := Dedupe(s[..|s| - 1]);
      if s[|s| - 1] in p then p else p + [s[|s| - 1]]
  }

  /** Where `x` first occurs in `s`. */
  function FirstIndex(s: seq<string>, x: string): (k: nat)
    requires x in s
    ensures k < |s| && s[k] == x && x !in s[..k]
  {
    if s[0] == x then 0
    else
      var k := FirstIndex(s[1..], x);
      assert s[..k + 1] == [s[0]] + s[1..][..k];
      k + 1
  }

  /** The elements of `d` appear in the order of their first occurrences in `s`. */
  ghost predicate InFirstOccurrenceOrder(d: seq<string>, s: seq<string>) {
    forall i, j :: 0 <= i < j < |d| && d[i] in s && d[j] in s ==> FirstIndex(s, d[i]) < FirstIndex(s, d[j])
  }

  /** Appending an element does not move the first occurrence of one already present. */
  lemma {:induction false} FirstIndexSnoc(s: seq<string>, x: string, y: string)
    requires y in s
    ensures FirstIndex(s + [x], y) == FirstIndex(s, y)
    decreases |s|
  {
    if s[0] != y {
      assert s == [s[0]] + s[1..];
      assert (s + [x])[1..] == s[1..] + [x];
      FirstIndexSnoc(s[1..], x, y);
    }
  }

  /** `dict.fromkeys` keeps every element and adds none. */
  lemma {:induction false} DedupeMembers(s: seq<string>)
    ensures forall x :: x in Dedupe(s) <==> x in s
    decreases |s|
  {
    if s != [] {
      DedupeMembers(s[..|s| - 1]);
      assert s == s[..|s| - 1] + [s[|s| - 1]];
    }
  }

  /** `dict.fromkeys` keeps one copy of every element. */
  lemma {:induction false} DedupeNoDup(s: seq<string>)
    ensures NoDup(Dedupe(s))
    decreases |s|
  {
    if s != [] {
      DedupeNoDup(s[..|s| - 1]);
      var p := Dedupe(s[..|s| - 1]);
      var x := s[|s| - 1];
      if x !in p {
        var d := p + [x];
        forall i, j | 0 <= i < j < |d|
          ensures d[i] != d[j]
        {
          assert d[i] == p[i];
          if j < |p| {
            assert d[j] == p[j];
          } else {
            assert d[i] in p;
          }
        }
      }
    }
  }

  /** `dict.fromkeys` keeps the elements in their original relative order. */
  lemma {:induction false} DedupeSubsequence(s: seq<string>)
    ensures IsSubsequence(Dedupe(s), s)
    decreases |s|
  {
    if s != [] {
      var init, x := s[..|s| - 1], s[|s| - 1];
      assert s == init + [x];
      DedupeSubsequence(init);
      SubsequenceExtend(Dedupe(init), init, x);
    }
  }

  /** `dict.fromkeys` orders the elements by their first occurrence. */
  lemma {:induction false} DedupeOrder(s: seq<string>)
    ensures InFirstOccurrenceOrder(Dedupe(s), s)
    decreases |s|
  {
    if s != [] {
      var init, x := s[..|s| - 1], s[|s| - 1];
      assert s == init + [x];
      DedupeOrder(init);
      DedupeMembers(init);
      var p := Dedupe(init);
      forall y | y in init
        ensures FirstIndex(s, y) == FirstIndex(init, y)
      {
        FirstIndexSnoc(init, x, y);
      }
      if x !in p {
        var d := p + [x];
        assert FirstIndex(s, x) == |init| by {
          assert s[..|init|] == init;
        }
        forall i, j | 0 <= i < j < |d| && d[i] in s && d[j] in s
          ensures FirstIndex(s, d[i]) < FirstIndex(s, d[j])
        {
          assert d[i] == p[i] && d[i] in init;
          if j < |p| {
            assert d[j] == p[j] && d[j] in init;
          } else {
            assert d[j] == x;
          }
        }
      } else {
        forall i, j | 0 <= i < j < |p| && p[i] in s && p[j] in s
          ensures FirstIndex(s, p[i]) < FirstIndex(s, p[j])
        {
          assert p[i] in init && p[j] in init;
        }
      }
    }
  }

  /** `unique_texts[:5]`. */
  function TakeFirst(s: seq<string>, n: nat): (r: seq<string>)
    ensures |r| <= n && |r| <= |s| && r == s[..|r|]
    ensures |s| >= n ==> |r| == n
    ensures |s| < n ==> r == s
  {
    if |s| <= n then s else s[..n]
  }

  /** The candidates `ocr_process` returns for the words Tesseract reported (`None`: a `TesseractError`). */
  function OcrCandidates(words: Option<seq<string>>): seq<string> {
    match words
    case None => []
    case Some(ws) => TakeFirst(Dedupe(CleanTokens(ws, |ws|)), MAX_CANDIDATES)
  }

  /** The body of the word loop: strip, and only a non-empty word is corrected and whitelisted. */
  method ReadWord(raw: string) returns (t: string)
    ensures t == CleanToken(raw)
  {
    t := Strip(raw);
    if t != [] {
      t := ReplaceChar(ReplaceChar(ReplaceChar(t, 'N', '\U{41C}'), 'I', '1'), 'O', '0');
      t := KeepPlateChars(t);
    }
  }

  /**
   * `ocr_process` after the image pipeline: `words` is the `text` column of `image_to_data`,
   * or `None` when Tesseract raised.
   */
  method OcrProcess(words: Option<seq<string>>) returns (candidates: seq<string>)
    ensures candidates == OcrCandidates(words)
  {
    if words.None? {
      return [];
    }
    var texts := CleanWords(words.value);
    assert texts == CleanTokens(words.value, |words.value|);
    var unique := Dedupe(texts);
    candidates := TakeFirst(unique, MAX_CANDIDATES);
  }

  /** After `i` words of `data`: `texts` holds the kept ones. */
  ghost predicate Kept(data: seq<string>, i: nat, texts: seq<string>) {
    i <= |data| && texts == CleanTokens(data, i)
  }

  /** One pass of the word loop: the word is cleaned and kept exactly when something is left. */
  method KeepWord(data: seq<string>, i: nat, texts: seq<string>) returns (next: seq<string>)
    requires i < |data| && Kept(data, i, texts)
    ensures Kept(data, i + 1, next)
  {
    var t := ReadWord(data[i]);
    next := texts;
    if t != [] {
      next := texts + [t];
    }
  }

  /** The loop over the `text` column: the kept words, in order. */
  method CleanWords(data: seq<string>) returns (texts: seq<string>)
    ensures Kept(data, |data|, texts)
  {
    texts := [];
    var i := 0;
    while i < |data|
      invariant i <= |data| && Kept(data, i, texts)
    {
      texts := KeepWord(data, i, texts);
      i := i + 1;
    }
  }

  /** Deduplicating and keeping the first five keeps plate words plate words, and makes them distinct. */
  lemma CandidatesFrom(ws: seq<string>)
    requires PlateWords(ws)
    ensures var r := TakeFirst(Dedupe(ws), MAX_CANDIDATES);
            |r| <= MAX_CANDIDATES && NoDup(r) && PlateWords(r) && r == Dedupe(ws)[..|r|]
    ensures InFirstOccurrenceOrder(Dedupe(ws), ws)
  {
    var d := Dedupe(ws);
    DedupeMembers(ws);
    DedupeNoDup(ws);
    DedupeOrder(ws);
    var r := TakeFirst(d, MAX_CANDIDATES);
    forall i | 0 <= i < |r|
      ensures r[i] in ws
    {
      assert r[i] == d[i] && d[i] in d;
    }
  }

  /**
   * What `ocr_process` returns: nothing after a Tesseract error; otherwise at most five
   * distinct non-empty words over the plate alphabet, the first distinct cleaned words in
   * order of first occurrence.
   */
  lemma OcrCandidatesSpec(words: Option<seq<string>>)
    ensures words.None? ==> OcrCandidates(words) == []
    ensures var r := OcrCandidates(words);
            |r| <= MAX_CANDIDATES && NoDup(r) && PlateWords(r)
    ensures words.Some? ==>
              var d := Dedupe(CleanTokens(words.value, |words.value|));
              OcrCandidates(words) == d[..|OcrCandidates(words)|] &&
              InFirstOccurrenceOrder(d, CleanTokens(words.value, |words.value|))
  {
    if words.Some? {
      CleanTokensAlphabet(words.value, |words.value|);
      CandidatesFrom(CleanTokens(words.value, |words.value|));
    }
  }

  /** С321АД50 contains Д, which the whitelist removes, so this server can never report that admitted plate. */
  lemma NeverReadsPlateWithDe(words: Option<seq<string>>)
    ensures ALLOWED_NUMBERS[4] !in OcrCandidates(words)
  {
    OcrCandidatesSpec(words);
    var p := ALLOWED_NUMBERS[4];
    assert !IsPlateChar(p[5]);
  }
}
