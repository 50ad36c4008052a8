/** The regular expressions built by `extract_values`: a field label
    followed by `\s*[:\-\–]?\s*([\d\.,]+)`, compiled with `re.IGNORECASE`
    and found with `search`. Only the two label shapes the field table uses
    are modelled, each by its own matcher:
    - words separated by `\s+`, such as `Activo\s+Corriente`;
    - parts separated by the lazy gap `.*?`, such as `Inversiones.*?C\/P`,
      where `.` matches any character but a newline (no DOTALL flag).
    `re.M` changes nothing, as no pattern has an anchor. */
module Patterns {
  import opened Wrappers
  import opened Text

  /** One position of a label: a literal character, or a bracket class
      such as `[ií]` given by its members. */
  type CharClass = seq<char>

  /** Label positions with nothing between them, such as `l[ií]quidos`. */
  type Word = seq<CharClass>

  datatype Label =
    | Spaced(words: seq<Word>)   // words[0]\s+words[1]\s+...
    | Lazy(parts: seq<Word>)     // parts[0].*?parts[1].*?...

  /** The word spelling `s` with one literal character per position. */
  function Literal(s: string): (w: Word)
    ensures |w| == |s|
    ensures forall k :: 0 <= k < |s| ==> w[k] == [s[k]]
  {
    seq(|s|, k requires 0 <= k < |s| => [s[k]])
  }

  /** A label position matches `c` when some member agrees with `c` after
      case folding (`re.IGNORECASE`). */
  predicate ClassHas(cls: CharClass, c: char)
  {
    exists j :: 0 <= j < |cls| && Fold(cls[j]) == Fold(c)
  }

  predicate WordAt(text: string, w: Word, p: nat)
  {
    p + |w| <= |text| && forall k :: 0 <= k < |w| ==> ClassHas(w[k], text[p + k])
  }

  predicate NoNewline(text: string, a: nat, b: nat)
    requires a <= b <= |text|
  {
    forall k :: a <= k < b ==> text[k] != '\n'
  }

  /** The end of the run of whitespace starting at `p`: what a greedy `\s*`
      consumes. */
  function SkipSpace(text: string, p: nat): (r: nat)
    requires p <= |text|
    ensures p <= r <= |text|
    ensures forall k :: p <= k < r ==> IsSpace(text[k])
    ensures r == |text| || !IsSpace(text[r])
    decreases |text| - p
  {
    if p < |text| && IsSpace(text[p]) then SkipSpace(text, p + 1) else p
  }

  /** The class `[:\-\–]`: colon, hyphen-minus and en dash. */
  predicate IsSeparator(c: char)
  {
    c == ':' || c == '-' || c == '\U{2013}'
  }

  /** The class `[\d\.,]`. */
  predicate IsNumeralChar(c: char)
  {
    IsDigit(c) || c == '.' || c == ','
  }

  predicate IsToken(s: string)
  {
    forall k :: 0 <= k < |s| ==> IsNumeralChar(s[k])
  }

  /** The end of the run of numeral characters starting at `p`: what a
      greedy `[\d\.,]+` consumes. */
  function NumeralEnd(text: string, p: nat): (r: nat)
    requires p <= |text|
    ensures p <= r <= |text|
    ensures forall k :: p <= k < r ==> IsNumeralChar(text[k])
    ensures r == |text| || !IsNumeralChar(text[r])
    decreases |text| - p
  {
    if p < |text| && IsNumeralChar(text[p]) then NumeralEnd(text, p + 1) else p
  }

  /** Where the group of `\s*[:\-\–]?\s*([\d\.,]+)` starts when the label
      ended at `e`: after the whitespace, at most one separator, and the
      whitespace after it. Without a separator the second `\s*` has
      nothing left to consume. */
  function NumeralStart(text: string, e: nat): (c: nat)
    requires e <= |text|
    ensures e <= c <= |text|
  {
    var p := SkipSpace(text, e);
    if p < |text| && IsSeparator(text[p]) then SkipSpace(text, p + 1) else p
  }

  /** The group `([\d\.,]+)` captured after a label that ended at `e`, or
      `None` when no numeral follows. The separator and the numeral
      characters are not whitespace and not each other, so the greedy
      quantifiers never give anything back: this is the only way the tail
      can match (see TailComplete). */
  function Tail(text: string, e: nat): (r: Option<string>)
    requires e <= |text|
    ensures r.Some? ==> r.value != [] && IsToken(r.value)
  {
    var c := NumeralStart(text, e);
    var d := NumeralEnd(text, c);
    if c < d then Some(text[c..d]) else None
  }

  /** `s` is something `\s*[:\-\–]?\s*` consumes entirely: whitespace with
      at most one separator among it. */
  ghost predicate SeparatorGap(s: string)
  {
    AllSpace(s)
    || exists m :: 0 <= m < |s| && IsSeparator(s[m]) && AllSpace(s[..m]) && AllSpace(s[m + 1..])
  }

  /** `text[e..d]` is a match of `\s*[:\-\–]?\s*([\d\.,]+)` whose group is
      `text[c..d]`. */
  ghost predicate TailMatch(text: string, e: nat, c: nat, d: nat)
  {
    e <= c < d <= |text|
    && SeparatorGap(text[e..c])
    && forall k :: c <= k < d ==> IsNumeralChar(text[k])
  }

  /** What `Tail` captures is a match of the tail pattern, and a maximal one. */
  lemma TailSound(text: string, e: nat)
    requires e <= |text| && Tail(text, e).Some?
    ensures exists c: nat, d: nat :: TailMatch(text, e, c, d) && Tail(text, e).value == text[c..d]
                           && (d == |text| || !IsNumeralChar(text[d]))
  {
    var c := NumeralStart(text, e);
    var d := NumeralEnd(text, c);
    GapBeforeNumeral(text, e);
    assert TailMatch(text, e, c, d);
  }

  /** What `NumeralStart` skips is whitespace with at most one separator. */
  lemma GapBeforeNumeral(text: string, e: nat)
    requires e <= |text|
    ensures SeparatorGap(text[e..NumeralStart(text, e)])
  {
    var p := SkipSpace(text, e);
    var c := NumeralStart(text, e);
    var s := text[e..c];
    if p < |text| && IsSeparator(text[p]) {
      assert s[..p - e] == text[e..p];
      assert s[p - e + 1..] == text[p + 1..c];
      assert IsSeparator(s[p - e]);
    } else {
      assert AllSpace(s);
    }
  }

  /** Every match of the tail pattern after `e` has its group start where
      `Tail`'s does, and none has a longer group: `Tail` is defined exactly
      when the pattern matches, and it captures the greedy group. */
  lemma TailComplete(text: string, e: nat, c: nat, d: nat)
    requires TailMatch(text, e, c, d)
    ensures d <= NumeralEnd(text, c) && Tail(text, e) == Some(text[c..NumeralEnd(text, c)])
  {
    NumeralStartAfterGap(text, e, c);
    NumeralEndCovers(text, c, d);
  }

  /** After whitespace with at most one separator, the group starts at the
      first numeral character. */
  lemma NumeralStartAfterGap(text: string, e: nat, c: nat)
    requires e <= c < |text| && SeparatorGap(text[e..c]) && IsNumeralChar(text[c])
    ensures NumeralStart(text, e) == c
  {
    if AllSpace(text[e..c]) {
      SkipSpaceTo(text, e, c);
    } else {
      var p := GapSeparator(text, e, c);
      NumeralStartAfterSeparator(text, e, p, c);
    }
  }

  /** A separator gap that is not all whitespace has its separator at some
      position `p` of `text`. */
  lemma GapSeparator(text: string, e: nat, c: nat) returns (p: nat)
    requires e <= c <= |text| && SeparatorGap(text[e..c]) && !AllSpace(text[e..c])
    ensures e <= p < c && IsSeparator(text[p]) && AllSpace(text[e..p]) && AllSpace(text[p + 1..c])
  {
    var s := text[e..c];
    var m := SeparatorIndex(s);
    assert s[..m] == text[e..e + m];
    assert s[m + 1..] == text[e + m + 1..c];
    p := e + m;
  }

  lemma SeparatorIndex(s: string) returns (m: nat)
    requires SeparatorGap(s) && !AllSpace(s)
    ensures m < |s| && IsSeparator(s[m]) && AllSpace(s[..m]) && AllSpace(s[m + 1..])
  {
    m :| 0 <= m < |s| && IsSeparator(s[m]) && AllSpace(s[..m]) && AllSpace(s[m + 1..]);
  }

  lemma NumeralStartAfterSeparator(text: string, e: nat, p: nat, c: nat)
    requires e <= p < c < |text| && IsSeparator(text[p]) && IsNumeralChar(text[c])
    requires AllSpace(text[e..p]) && AllSpace(text[p + 1..c])
    ensures NumeralStart(text, e) == c
  {
    SkipSpaceTo(text, e, p);
    SkipSpaceTo(text, p + 1, c);
  }

  /** A minus sign before an amount is taken as the separator, not as a
      sign: the group starts after it. */
  lemma MinusIsSeparator(text: string, e: nat)
    requires e + 1 < |text| && text[e] == '-' && IsDigit(text[e + 1])
    ensures Tail(text, e) == Some(text[e + 1..NumeralEnd(text, e + 1)])
  {
    var s := text[e..e + 1];
    assert AllSpace(s[..0]) && AllSpace(s[1..]) && IsSeparator(s[0]);
    assert SeparatorGap(s);
    TailComplete(text, e, e + 1, e + 2);
  }

  /** A minus sign after another separator blocks the tail: the class
      `[:\-\–]?` took the first separator, and the group cannot start on a
      `-`, so this label occurrence yields no amount at all. */
  lemma SignAfterSeparatorBlocks(text: string, e: nat, p: nat, q: nat)
    requires e <= p < q < |text| && IsSeparator(text[p]) && text[q] == '-'
    requires AllSpace(text[e..p]) && AllSpace(text[p + 1..q])
    ensures Tail(text, e).None?
  {
    SkipSpaceTo(text, e, p);
    SkipSpaceTo(text, p + 1, q);
  }

  /** A greedy `[\d\.,]+` from `c` gets at least as far as any run of
      numeral characters from `c`. */
  lemma NumeralEndCovers(text: string, c: nat, d: nat)
    requires c <= d <= |text| && forall k :: c <= k < d ==> IsNumeralChar(text[k])
    ensures d <= NumeralEnd(text, c)
  {
  }

  /** `\s*` from `p` stops at the first character that is not whitespace. */
  lemma SkipSpaceTo(text: string, p: nat, q: nat)
    requires p <= q < |text| && AllSpace(text[p..q]) && !IsSpace(text[q])
    ensures SkipSpace(text, p) == q
  {
  }

  /** The end of a `\s+`-separated run of the words `ws` that starts with
      the separator, from `p`. `\s+` takes the whole run of whitespace:
      when no word starts with a class that matches whitespace this loses
      no match (see SpacedComplete). */
  function SpacedRest(text: string, ws: seq<Word>, p: nat): (r: Option<nat>)
    requires p <= |text|
    ensures r.Some? ==> p <= r.value <= |text|
    decreases |ws|
  {
    if ws == [] then Some(p)
    else
      var q := SkipSpace(text, p);
      if p < q && WordAt(text, ws[0], q) then SpacedRest(text, ws[1..], q + |ws[0]|) else None
  }

  predicate IsAsciiLetter(c: char)
  {
    'A' <= c <= 'Z' || 'a' <= c <= 'z'
  }

  /** A word whose first position holds only ASCII letters, as every word
      of the table does. */
  predicate LetterStart(w: Word)
  {
    |w| > 0 && forall j :: 0 <= j < |w[0]| ==> IsAsciiLetter(w[0][j])
  }

  /** `text[p..e]` is `\s+ws[0]\s+ws[1]...` matched in some way: each word
      after a non-empty run of whitespace. */
  ghost predicate SpacedSplit(text: string, ws: seq<Word>, p: nat, e: nat)
    decreases |ws|
  {
    if ws == [] then p == e
    else exists q: nat :: p < q <= |text| && AllSpace(text[p..q]) && WordAt(text, ws[0], q)
                          && SpacedSplit(text, ws[1..], q + |ws[0]|, e)
  }

  /** Whitespace never folds onto an ASCII letter. */
  lemma SpaceNotLetter(c: char, l: char)
    requires IsAsciiLetter(l)
    ensures IsSpace(c) ==> Fold(c) != Fold(l)
  {
  }

  /** A character that matches the first position of such a word is not
      whitespace. */
  lemma LetterStartNotSpace(w: Word, c: char)
    requires LetterStart(w) && ClassHas(w[0], c)
    ensures !IsSpace(c)
  {
    var j :| 0 <= j < |w[0]| && Fold(w[0][j]) == Fold(c);
    SpaceNotLetter(c, w[0][j]);
  }

  /** One word of `SpacedRest`: after the whitespace that ends at `q`. */
  lemma SpacedRestStep(text: string, ws: seq<Word>, p: nat, q: nat, rest: seq<Word>, r: nat, e: nat)
    requires ws != [] && p < q <= |text| && SkipSpace(text, p) == q && WordAt(text, ws[0], q)
    requires rest == ws[1..] && r == q + |ws[0]| <= |text| && SpacedRest(text, rest, r) == Some(e)
    ensures SpacedRest(text, ws, p) == Some(e)
  {
  }

  lemma WordStartNotSpace(text: string, w: Word, q: nat)
    requires LetterStart(w) && WordAt(text, w, q)
    ensures q < |text| && !IsSpace(text[q])
  {
    assert ClassHas(w[0], text[q + 0]);
    LetterStartNotSpace(w, text[q]);
  }

  /** What `SpacedRest` consumes is a match of the words with `\s+` before
      each. */
  lemma {:induction false} SpacedSound(text: string, ws: seq<Word>, p: nat)
    requires p <= |text| && SpacedRest(text, ws, p).Some?
    ensures SpacedSplit(text, ws, p, SpacedRest(text, ws, p).value)
    decreases |ws|
  {
    if ws != [] {
      var q := SkipSpace(text, p);
      SpacedSound(text, ws[1..], q + |ws[0]|);
      assert AllSpace(text[p..q]);
      assert WordAt(text, ws[0], q);
    }
  }

  /** When every word starts with letters, every way of matching the words
      with `\s+` before each ends where `SpacedRest` does: the greedy `\s+`
      never had to give anything back. */
  lemma {:induction false} SpacedComplete(text: string, ws: seq<Word>, p: nat, e: nat)
    requires p <= |text| && forall i :: 0 <= i < |ws| ==> LetterStart(ws[i])
    requires SpacedSplit(text, ws, p, e)
    ensures SpacedRest(text, ws, p) == Some(e)
    decreases |ws|
  {
    if ws != [] {
      var q := SkipSpace(text, p);
      var rest, r := ws[1..], q + |ws[0]|;
      SpacedSplitFirst(text, ws, p, e);
      LetterStartsTail(ws);
      SpacedComplete(text, rest, r, e);
      SpacedRestStep(text, ws, p, q, rest, r, e);
    }
  }

  lemma LetterStartsTail(ws: seq<Word>)
    requires ws != [] && forall i :: 0 <= i < |ws| ==> LetterStart(ws[i])
    ensures LetterStart(ws[0]) && forall i :: 0 <= i < |ws[1..]| ==> LetterStart(ws[1..][i])
  {
    assert forall i :: 0 <= i < |ws[1..]| ==> ws[1..][i] == ws[i + 1];
  }

  /** The first word of such a match starts where `\s+` stops. */
  lemma SpacedSplitFirst(text: string, ws: seq<Word>, p: nat, e: nat)
    requires p <= |text| && ws != [] && LetterStart(ws[0]) && SpacedSplit(text, ws, p, e)
    ensures p < SkipSpace(text, p) && WordAt(text, ws[0], SkipSpace(text, p))
    ensures SpacedSplit(text, ws[1..], SkipSpace(text, p) + |ws[0]|, e)
  {
    var q: nat :| p < q <= |text| && AllSpace(text[p..q]) && WordAt(text, ws[0], q)
                  && SpacedSplit(text, ws[1..], q + |ws[0]|, e);
    WordStartNotSpace(text, ws[0], q);
    SkipSpaceTo(text, p, q);
  }

  /** The group captured by the rest of a lazy label from `p`: each of
      `parts` after a lazy gap `.*?`, then the tail. */
  function LazyRest(text: string, parts: seq<Word>, p: nat): (r: Option<string>)
    requires p <= |text|
    ensures r.Some? ==> r.value != [] && IsToken(r.value)
    decreases |parts|, |text| + 2
  {
    if parts == [] then Tail(text, p)
    else
      match LeastGap(text, parts[0], parts[1..], p)
      case None => None
      case Some(g) => LazyRest(text, parts[1..], g + |parts[0]|)
  }

  /** The lazy gap `.*?` before the part `w`: the least `h >= g`, reached
      over non-newline characters only, at which `w` and then the rest of
      the label match. */
  function LeastGap(text: string, w: Word, rest: seq<Word>, g: nat): (r: Option<nat>)
    requires g <= |text|
    ensures r.Some? ==> g <= r.value <= |text| && Fits(text, w, rest, r.value) && NoNewline(text, g, r.value)
    ensures r.Some? ==> forall h :: g <= h < r.value ==> !Fits(text, w, rest, h)
    ensures r.None? ==> forall h :: g <= h <= |text| && NoNewline(text, g, h) ==> !Fits(text, w, rest, h)
    decreases |rest| + 1, |text| - g + 1
  {
    if Fits(text, w, rest, g) then Some(g)
    else if g < |text| && text[g] != '\n' then LeastGap(text, w, rest, g + 1)
    else None
  }

  /** The part `w` matches at `h` and the rest of the label after it. */
  predicate Fits(text: string, w: Word, rest: seq<Word>, h: nat)
    requires h <= |text|
    decreases |rest| + 1, 0
  {
    WordAt(text, w, h) && LazyRest(text, rest, h + |w|).Some?
  }

  /** The group captured when the label, and the tail after it, match at
      exactly position `i` (Python's `match` at `i`). */
  function MatchAt(text: string, lab: Label, i: nat): (r: Option<string>)
    requires i <= |text|
    ensures r.Some? ==> r.value != [] && IsToken(r.value)
  {
    match lab
    case Spaced(ws) =>
      if ws == [] then Tail(text, i)
      else if WordAt(text, ws[0], i) then
        match SpacedRest(text, ws[1..], i + |ws[0]|)
        case None => None
        case Some(e) => Tail(text, e)
      else None
    case Lazy(ps) =>
      if ps == [] then Tail(text, i)
      else if WordAt(text, ps[0], i) then LazyRest(text, ps[1..], i + |ps[0]|)
      else None
  }

  /** A match object: where the match starts and its group 1. */
  datatype Hit = Hit(start: nat, token: string)

  /** The scan of `search` over start positions: the least `j` in
      `i..n` at which `m` yields a group. */
  function FirstHit(m: nat -> Option<string>, n: nat, i: nat): (r: Option<Hit>)
    requires i <= n
    ensures r.Some? ==> i <= r.value.start <= n && m(r.value.start) == Some(r.value.token)
    ensures r.Some? ==> forall j :: i <= j < r.value.start ==> m(j).None?
    ensures r.None? ==> forall j :: i <= j <= n ==> m(j).None?
    decreases n - i
  {
    if m(i).Some? then Some(Hit(i, m(i).value))
    else if i == n then None
    else FirstHit(m, n, i + 1)
  }

  /** `pattern.search(text)`: the match at the least start position at
      which the whole pattern matches. */
  function Search(text: string, lab: Label): (r: Option<Hit>)
    ensures r.Some? ==> r.value.start <= |text| && MatchAt(text, lab, r.value.start) == Some(r.value.token)
    ensures r.Some? ==> forall j :: 0 <= j < r.value.start ==> MatchAt(text, lab, j).None?
    ensures r.None? <==> forall j :: 0 <= j <= |text| ==> MatchAt(text, lab, j).None?
  {
    var m := (j: nat) => if j <= |text| then MatchAt(text, lab, j) else None;
    assert forall j :: 0 <= j <= |text| ==> m(j) == MatchAt(text, lab, j);
    FirstHit(m, |text|, 0)
  }

  /** No character of the word is a newline, so neither is any character
      the word matches. */
  predicate NewlineFree(w: Word)
  {
    forall k, j :: 0 <= k < |w| && 0 <= j < |w[k]| ==> w[k][j] != '\n'
  }

  lemma WordAtNoNewline(text: string, w: Word, p: nat)
    requires NewlineFree(w) && WordAt(text, w, p)
    ensures NoNewline(text, p, p + |w|)
  {
    forall k | p <= k < p + |w| ensures text[k] != '\n' {
      assert ClassHas(w[k - p], text[k]);
    }
  }

  /** Dropping a newline-free part from the middle of a lazy label keeps
      every match: the gaps on either side of it join into one. */
  lemma {:induction false} LazyRestDropPart(text: string, w: Word, rest: seq<Word>, p: nat)
    requires p <= |text| && rest != [] && NewlineFree(w)
    requires LazyRest(text, [w] + rest, p).Some?
    ensures LazyRest(text, rest, p).Some?
  {
    assert ([w] + rest)[1..] == rest;
    var g1 := LeastGap(text, w, rest, p).value;
    var q := g1 + |w|;
    WordAtNoNewline(text, w, g1);
    var v, vs := rest[0], rest[1..];
    var g2 := LeastGap(text, v, vs, q).value;
    assert NoNewline(text, p, g2) by {
      forall k | p <= k < g2 ensures text[k] != '\n' {
        if k < g1 {
        } else if k < q {
        } else {
        }
      }
    }
    assert Fits(text, v, vs, g2);
  }

  /** Consequently a lazy label with an extra newline-free middle part
      matches nowhere that the shorter label does not. */
  lemma SearchDropPart(text: string, first: Word, w: Word, rest: seq<Word>)
    requires rest != [] && NewlineFree(w)
    requires Search(text, Lazy([first, w] + rest)).Some?
    ensures Search(text, Lazy([first] + rest)).Some?
  {
    var i := Search(text, Lazy([first, w] + rest)).value.start;
    assert ([first, w] + rest)[1..] == [w] + rest;
    assert ([first] + rest)[1..] == rest;
    LazyRestDropPart(text, w, rest, i + |first|);
    assert MatchAt(text, Lazy([first] + rest), i).Some?;
  }

}
