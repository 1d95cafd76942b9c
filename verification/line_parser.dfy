/** The line-to-word parser of frontend/frontend_pipes_xorriso.c: which words a line contains. */
module LineParser {
  import opened Backslash

  datatype Option<T> = None | Some(value: T)

  /** An empty list of separators stands for white space. bslMode: 0 = no interpretation of backslashes,
      1 = inside double quotes, 2 = inside double or single quotes. */
  datatype Rules = Rules(separators: string, bslMode: Mode)

  type Mode = n: nat | n <= 2

  predicate IsSpace(c: char) {
    c == ' ' || 9 as char <= c <= 13 as char
  }

  predicate IsSep(rules: Rules, c: char) {
    if rules.separators != [] then c in rules.separators else IsSpace(c)
  }

  function InDouble(rules: Rules, t: string): string {
    if rules.bslMode >= 1 then Decode(t) else t
  }

  function InSingle(rules: Rules, t: string): string {
    if rules.bslMode >= 2 then Decode(t) else t
  }

  /** Position of the first c in t, or the length of t if there is none. */
  function Find(t: string, c: char): (n: nat)
    ensures n <= |t| && c !in t[..n] && (n < |t| ==> t[n] == c)
  {
    if t == [] || t[0] == c then 0 else 1 + Find(t[1..], c)
  }

  /** A word and what follows it. Or a missing closing quote. */
  datatype Scanned = Unclosed | Word(word: string, rest: string)

  /** Scans up to the end of a word of which the first part is already known. */
  function Scan(rules: Rules, t: string, word: string): (r: Scanned)
    ensures r.Word? ==> |r.rest| <= |t| && (r.rest == [] || IsSep(rules, r.rest[0]))
    decreases |t|
  {
    if t == [] || IsSep(rules, t[0]) then Word(word, t)
    else if t[0] == '"' then
      var n := Find(t[1..], '"');
      if n == |t| - 1 then Unclosed else Scan(rules, t[n + 2..], word + InDouble(rules, t[1..n + 1]))
    else if t[0] == '\'' then
      var n := Find(t[1..], '\'');
      if n == |t| - 1 then Unclosed else Scan(rules, t[n + 2..], word + InSingle(rules, t[1..n + 1]))
    else Scan(rules, t[1..], word + [t[0]])
  }

  /** The words of a line, or None if a closing quote is missing. */
  function Words(rules: Rules, t: string): Option<seq<string>>
    decreases |t|
  {
    if t == [] then Some([])
    else if IsSep(rules, t[0]) then Words(rules, t[1..])
    else
      match Scan(rules, t, [])
      case Unclosed => None
      case Word(word, rest) =>
        var more := if rest == [] then Some([]) else Words(rules, rest[1..]);
        if more.None? then None else Some([word] + more.value)
  }

  // ---------- how lines are composed

  datatype Segment = Plain(c: char) | Double(text: string) | Single(text: string)

  predicate SegmentOk(rules: Rules, g: Segment) {
    match g
    case Plain(c) => !IsSep(rules, c) && c != '"' && c != '\''
    case Double(text) => !IsSep(rules, '"') && '"' !in text
    case Single(text) => !IsSep(rules, '\'') && '\'' !in text
  }

  function SegmentText(g: Segment): string {
    match g
    case Plain(c) => [c]
    case Double(text) => "\"" + text + "\""
    case Single(text) => "'" + text + "'"
  }

  function SegmentValue(rules: Rules, g: Segment): string {
    match g
    case Plain(c) => [c]
    case Double(text) => InDouble(rules, text)
    case Single(text) => InSingle(rules, text)
  }

  function WordText(word: seq<Segment>): string {
    if word == [] then [] else SegmentText(word[0]) + WordText(word[1..])
  }

  function WordValue(rules: Rules, word: seq<Segment>): string {
    if word == [] then [] else SegmentValue(rules, word[0]) + WordValue(rules, word[1..])
  }

  predicate WordOk(rules: Rules, word: seq<Segment>) {
    word != [] && forall k :: 0 <= k < |word| ==> SegmentOk(rules, word[k])
  }

  predicate AllSeps(rules: Rules, t: string) {
    forall k :: 0 <= k < |t| ==> IsSep(rules, t[k])
  }

  /** Separators before a word, which are needed only between words. */
  datatype Item = Item(gap: string, word: seq<Segment>)

  function LineText(items: seq<Item>, tail: string): string {
    if items == [] then tail else items[0].gap + WordText(items[0].word) + LineText(items[1..], tail)
  }

  function LineValue(rules: Rules, items: seq<Item>): seq<string> {
    if items == [] then [] else [WordValue(rules, items[0].word)] + LineValue(rules, items[1..])
  }

  ghost predicate LineOk(rules: Rules, items: seq<Item>, tail: string) {
    && AllSeps(rules, tail)
    && (forall k :: 0 <= k < |items| ==> WordOk(rules, items[k].word) && AllSeps(rules, items[k].gap))
    && (forall k :: 0 < k < |items| ==> items[k].gap != [])
  }

  // ---------- composed lines are parsed to their words

  lemma {:induction false} FindQuote(text: string, c: char, rest: string)
    requires c !in text
    ensures Find(text + [c] + rest, c) == |text|
  {
    if text == [] {
      assert text + [c] + rest == [c] + rest;
    } else {
      FindQuote(text[1..], c, rest);
      assert (text + [c] + rest)[1..] == text[1..] + [c] + rest;
    }
  }

  lemma QuotedText(text: string, c: char, rest: string)
    requires c !in text
    ensures var t := [c] + text + [c] + rest;
      && Find(t[1..], c) == |text| < |t| - 1 && t[1..|text| + 1] == text && t[|text| + 2..] == rest
  {
    FindQuote(text, c, rest);
    assert ([c] + text + [c] + rest)[1..] == text + [c] + rest;
  }

  lemma ScanDouble(rules: Rules, text: string, rest: string, word: string)
    requires !IsSep(rules, '"') && '"' !in text
    ensures Scan(rules, "\"" + text + "\"" + rest, word) == Scan(rules, rest, word + InDouble(rules, text))
  {
    hide InDouble, Find;
    QuotedText(text, '"', rest);
  }

  lemma ScanSingle(rules: Rules, text: string, rest: string, word: string)
    requires !IsSep(rules, '\'') && '\'' !in text
    ensures Scan(rules, "'" + text + "'" + rest, word) == Scan(rules, rest, word + InSingle(rules, text))
  {
    hide InSingle, Find;
    QuotedText(text, '\'', rest);
  }

  lemma ScanPlain(rules: Rules, c: char, rest: string, word: string)
    requires !IsSep(rules, c) && c != '"' && c != '\''
    ensures Scan(rules, [c] + rest, word) == Scan(rules, rest, word + [c])
  {
    assert ([c] + rest)[1..] == rest;
  }

  lemma ScanSegment(rules: Rules, g: Segment, rest: string, word: string)
    requires SegmentOk(rules, g)
    ensures Scan(rules, SegmentText(g) + rest, word) == Scan(rules, rest, word + SegmentValue(rules, g))
  {
    hide Scan, InDouble, InSingle, IsSep;
    match g
    case Plain(c) => ScanPlain(rules, c, rest, word);
    case Double(text) => ScanDouble(rules, text, rest, word);
    case Single(text) => ScanSingle(rules, text, rest, word);
  }

  lemma {:induction false} ScanWord(rules: Rules, segments: seq<Segment>, rest: string, word: string)
    requires forall k :: 0 <= k < |segments| ==> SegmentOk(rules, segments[k])
    requires rest == [] || IsSep(rules, rest[0])
    ensures Scan(rules, WordText(segments) + rest, word) == Word(word + WordValue(rules, segments), rest)
  {
    hide SegmentText, SegmentValue, SegmentOk, InDouble, InSingle;
    if segments == [] {
      assert WordText(segments) + rest == rest;
      assert word + WordValue(rules, segments) == word;
    } else {
      var g, more := segments[0], segments[1..];
      assert WordText(segments) + rest == SegmentText(g) + (WordText(more) + rest);
      ScanSegment(rules, g, WordText(more) + rest, word);
      ScanWord(rules, more, rest, word + SegmentValue(rules, g));
      assert word + WordValue(rules, segments) == word + SegmentValue(rules, g) + WordValue(rules, more);
    }
  }

  lemma {:induction false} SkipSeps(rules: Rules, gap: string, t: string)
    requires AllSeps(rules, gap)
    ensures Words(rules, gap + t) == Words(rules, t)
  {
    hide Scan, IsSep;
    if gap == [] {
      assert gap + t == t;
    } else {
      assert IsSep(rules, gap[0]);
      assert (gap + t)[1..] == gap[1..] + t;
      SkipSeps(rules, gap[1..], t);
    }
  }

  lemma WordBegins(rules: Rules, word: seq<Segment>)
    requires WordOk(rules, word)
    ensures WordText(word) != [] && !IsSep(rules, WordText(word)[0])
  {
    hide IsSep;
    assert SegmentOk(rules, word[0]);
  }

  /** A word at the start of a line which goes on by "rest". */
  lemma WordsOfWord(rules: Rules, word: seq<Segment>, rest: string)
    requires WordOk(rules, word) && (rest == [] || IsSep(rules, rest[0]))
    ensures var more := Words(rules, rest);
      Words(rules, WordText(word) + rest)
        == if more.None? then None else Some([WordValue(rules, word)] + more.value)
  {
    hide Scan, IsSep, WordText, WordValue, SegmentOk;
    WordBegins(rules, word);
    ScanWord(rules, word, rest, []);
    assert [] + WordValue(rules, word) == WordValue(rules, word);
    assert (WordText(word) + rest)[0] == WordText(word)[0];
  }

  /** A line which is composed of words gets parsed to the values of these words. */
  lemma {:induction false} ComposedLine(rules: Rules, items: seq<Item>, tail: string)
    requires LineOk(rules, items, tail)
    ensures Words(rules, LineText(items, tail)) == Some(LineValue(rules, items))
  {
    hide Words, WordText, WordValue, WordOk, IsSep;
    if items == [] {
      SkipSeps(rules, tail, []);
      assert tail + [] == tail;
      NoWords(rules);
    } else {
      var rest := LineText(items[1..], tail);
      ComposedLine(rules, items[1..], tail);
      RestBegins(rules, items, tail);
      WordsOfWord(rules, items[0].word, rest);
      SkipSeps(rules, items[0].gap, WordText(items[0].word) + rest);
      assert LineText(items, tail) == items[0].gap + (WordText(items[0].word) + rest);
    }
  }

  lemma NoWords(rules: Rules)
    ensures Words(rules, []) == Some([])
  {}

  lemma RestBegins(rules: Rules, items: seq<Item>, tail: string)
    requires LineOk(rules, items, tail) && items != []
    ensures LineOk(rules, items[1..], tail)
    ensures var rest := LineText(items[1..], tail); rest == [] || IsSep(rules, rest[0])
  {
    hide WordText, WordOk, IsSep;
    if |items| > 1 {
      assert items[1].gap != [] && AllSeps(rules, items[1].gap);
      assert IsSep(rules, items[1].gap[0]);
    } else if tail != [] {
      assert IsSep(rules, tail[0]);
    }
  }

  // ---------- every line with closed quotes is composed like this

  predicate SegmentsOk(rules: Rules, segments: seq<Segment>) {
    forall k :: 0 <= k < |segments| ==> SegmentOk(rules, segments[k])
  }

  /** The first segment of a word which is not at its end. */
  lemma ScannedSegment(rules: Rules, t: string, word: string) returns (g: Segment, rest: string)
    requires t != [] && !IsSep(rules, t[0]) && Scan(rules, t, word).Word?
    ensures SegmentOk(rules, g) && t == SegmentText(g) + rest && |rest| < |t|
    ensures Scan(rules, t, word) == Scan(rules, rest, word + SegmentValue(rules, g))
  {
    hide InDouble, InSingle, IsSep;
    if t[0] == '"' || t[0] == '\'' {
      var n := Find(t[1..], t[0]);
      g := if t[0] == '"' then Double(t[1..n + 1]) else Single(t[1..n + 1]);
      rest := t[n + 2..];
      assert t[1..][..n] == t[1..n + 1];
      assert t == [t[0]] + t[1..n + 1] + [t[0]] + rest;
    } else {
      g, rest := Plain(t[0]), t[1..];
    }
  }

  lemma {:induction false} ScannedWord(rules: Rules, t: string, word: string) returns (segments: seq<Segment>)
    requires Scan(rules, t, word).Word?
    ensures var r := Scan(rules, t, word);
      SegmentsOk(rules, segments) && t == WordText(segments) + r.rest && r.word == word + WordValue(rules, segments)
    decreases |t|
  {
    hide SegmentText, SegmentValue, SegmentOk, IsSep, InDouble, InSingle, WordText, WordValue, Scan;
    if t == [] || IsSep(rules, t[0]) {
      segments := [];
      ScanEnd(rules, t, word);
      EmptyWord(rules);
      assert word + [] == word && [] + t == t;
    } else {
      var g, rest := ScannedSegment(rules, t, word);
      var more := ScannedWord(rules, rest, word + SegmentValue(rules, g));
      segments := [g] + more;
      Prepended(rules, g, more);
      var r := Scan(rules, t, word);
      assert SegmentText(g) + (WordText(more) + r.rest) == SegmentText(g) + WordText(more) + r.rest;
      assert word + SegmentValue(rules, g) + WordValue(rules, more)
        == word + (SegmentValue(rules, g) + WordValue(rules, more));
    }
  }

  lemma ScanEnd(rules: Rules, t: string, word: string)
    requires t == [] || IsSep(rules, t[0])
    ensures Scan(rules, t, word) == Word(word, t)
  {}

  lemma EmptyWord(rules: Rules)
    ensures WordText([]) == [] && WordValue(rules, []) == []
  {}

  lemma Prepended(rules: Rules, g: Segment, more: seq<Segment>)
    ensures WordText([g] + more) == SegmentText(g) + WordText(more)
    ensures WordValue(rules, [g] + more) == SegmentValue(rules, g) + WordValue(rules, more)
  {
    assert ([g] + more)[1..] == more;
  }

  lemma SepBefore(rules: Rules, c: char, items: seq<Item>, tail: string) returns (items': seq<Item>, tail': string)
    requires LineOk(rules, items, tail) && IsSep(rules, c)
    ensures LineOk(rules, items', tail') && LineText(items', tail') == [c] + LineText(items, tail)
    ensures LineValue(rules, items') == LineValue(rules, items)
  {
    hide WordOk, IsSep, WordText, WordValue;
    if items == [] {
      items', tail' := [], [c] + tail;
    } else {
      items', tail' := [items[0].(gap := [c] + items[0].gap)] + items[1..], tail;
      assert items'[1..] == items[1..];
      var after := WordText(items[0].word) + LineText(items[1..], tail);
      assert LineText(items, tail) == items[0].gap + after && LineText(items', tail) == [c] + items[0].gap + after;
    }
  }

  lemma StartsWithWord(rules: Rules, items: seq<Item>, tail: string)
    requires items != [] && items[0].gap == [] && WordOk(rules, items[0].word)
    ensures LineText(items, tail) != [] && !IsSep(rules, LineText(items, tail)[0])
  {
    hide IsSep, WordOk;
    WordBegins(rules, items[0].word);
  }

  lemma WordBefore(rules: Rules, segments: seq<Segment>, items: seq<Item>, tail: string) returns (items': seq<Item>)
    requires LineOk(rules, items, tail) && WordOk(rules, segments)
    requires var t := LineText(items, tail); t == [] || IsSep(rules, t[0])
    ensures LineOk(rules, items', tail) && LineText(items', tail) == WordText(segments) + LineText(items, tail)
    ensures LineValue(rules, items') == [WordValue(rules, segments)] + LineValue(rules, items)
  {
    hide WordOk, IsSep, WordText, WordValue;
    items' := [Item([], segments)] + items;
    assert items'[1..] == items;
    if items != [] && items[0].gap == [] {
      StartsWithWord(rules, items, tail);
    }
    assert [] + WordText(segments) == WordText(segments);
  }

  /** Every line with closed quotes is composed of its words. */
  lemma {:induction false} ParsedLine(rules: Rules, t: string) returns (items: seq<Item>, tail: string)
    requires Words(rules, t).Some?
    ensures LineOk(rules, items, tail) && LineText(items, tail) == t && LineValue(rules, items) == Words(rules, t).value
    decreases |t|
  {
    hide LineOk, IsSep, WordText, WordValue, SegmentOk, Scan;
    if t == [] {
      items, tail := [], [];
      EmptyLine(rules);
    } else if IsSep(rules, t[0]) {
      items, tail := ParsedLine(rules, t[1..]);
      items, tail := SepBefore(rules, t[0], items, tail);
    } else {
      var r := Scan(rules, t, []);
      var segments := ScannedWord(rules, t, []);
      WordIsNotEmpty(rules, segments, t, r.rest);
      items, tail := ParsedLine(rules, r.rest);
      items := WordBefore(rules, segments, items, tail);
      assert [] + WordValue(rules, segments) == WordValue(rules, segments);
    }
  }

  lemma EmptyLine(rules: Rules)
    ensures LineOk(rules, [], []) && LineText([], []) == [] && LineValue(rules, []) == []
  {}

  lemma WordIsNotEmpty(rules: Rules, segments: seq<Segment>, t: string, rest: string)
    requires t == WordText(segments) + rest && t != [] && !IsSep(rules, t[0]) && (rest == [] || IsSep(rules, rest[0]))
    ensures segments != [] && |rest| < |t|
  {
    hide IsSep;
    if segments != [] {
      assert SegmentText(segments[0]) != [];
    }
  }

  /** A line has certain words exactly if it is composed of words with these values. */
  lemma WordsAreComposition(rules: Rules, t: string, words: seq<string>)
    ensures Words(rules, t) == Some(words)
      <==> exists items, tail ::
             LineOk(rules, items, tail) && LineText(items, tail) == t && LineValue(rules, items) == words
  {
    hide Words, LineOk, LineText, LineValue;
    if Words(rules, t) == Some(words) {
      var items, tail := ParsedLine(rules, t);
    }
    forall items, tail | LineOk(rules, items, tail) && LineText(items, tail) == t && LineValue(rules, items) == words
      ensures Words(rules, t) == Some(words)
    {
      ComposedLine(rules, items, tail);
    }
  }

  // ---------- round trips

  /** A word with quotes around each character. Double quotes get single ones. */
  function QuotedWord(w: string): (segments: seq<Segment>)
    ensures segments != []
  {
    if w == [] then [Double([])]
    else
      var g := if w[0] == '"' then Single([w[0]]) else Double([w[0]]);
      if |w| == 1 then [g] else [g] + QuotedWord(w[1..])
  }

  function QuotedLine(words: seq<string>, sep: char): seq<Item> {
    if words == [] then [] else QuotedLine(words[..|words| - 1], sep) + [Item([sep], QuotedWord(words[|words| - 1]))]
  }

  lemma SingleCharacter(c: char)
    ensures Decode([c]) == [c] && Decode([]) == []
  {
    assert [c][1..] == [];
  }

  lemma {:induction false} QuotedWordValue(rules: Rules, w: string)
    requires !IsSep(rules, '"') && !IsSep(rules, '\'')
    ensures WordOk(rules, QuotedWord(w)) && WordValue(rules, QuotedWord(w)) == w
  {
    hide Decode, IsSep;
    SingleCharacter(if w == [] then ' ' else w[0]);
    if |w| <= 1 {
      assert QuotedWord(w)[1..] == [] && WordValue(rules, []) == [];
    } else {
      QuotedWordValue(rules, w[1..]);
      assert QuotedWord(w)[1..] == QuotedWord(w[1..]);
    }
  }

  lemma {:induction false} QuotedLineValue(rules: Rules, words: seq<string>, sep: char)
    requires IsSep(rules, sep) && !IsSep(rules, '"') && !IsSep(rules, '\'')
    ensures LineOk(rules, QuotedLine(words, sep), []) && LineValue(rules, QuotedLine(words, sep)) == words
  {
    hide IsSep, QuotedWord, WordOk, WordValue, AllSeps, LineOk;
    EmptyLine(rules);
    SingleSep(rules, sep);
    if words != [] {
      var n := |words| - 1;
      QuotedLineValue(rules, words[..n], sep);
      QuotedWordValue(rules, words[n]);
      LineValueLast(rules, QuotedLine(words[..n], sep), Item([sep], QuotedWord(words[n])));
      LineOkLast(rules, QuotedLine(words[..n], sep), Item([sep], QuotedWord(words[n])));
    }
  }

  lemma LineOkLast(rules: Rules, items: seq<Item>, last: Item)
    requires LineOk(rules, items, []) && WordOk(rules, last.word) && AllSeps(rules, last.gap) && last.gap != []
    ensures LineOk(rules, items + [last], [])
  {
    hide WordOk, AllSeps;
  }

  lemma SingleSep(rules: Rules, sep: char)
    requires IsSep(rules, sep)
    ensures AllSeps(rules, [sep])
  {
    hide IsSep;
  }

  lemma {:induction false} LineValueLast(rules: Rules, items: seq<Item>, last: Item)
    ensures LineValue(rules, items + [last]) == LineValue(rules, items) + [WordValue(rules, last.word)]
  {
    hide WordValue;
    if items != [] {
      assert (items + [last])[1..] == items[1..] + [last];
      LineValueLast(rules, items[1..], last);
    }
  }

  /** Any list of words can be written as a line which yields exactly these words, whatever the interpretation of
      backslashes is. */
  lemma RoundTrip(rules: Rules, words: seq<string>, sep: char)
    requires IsSep(rules, sep) && !IsSep(rules, '"') && !IsSep(rules, '\'')
    ensures Words(rules, LineText(QuotedLine(words, sep), [])) == Some(words)
  {
    QuotedLineValue(rules, words, sep);
    ComposedLine(rules, QuotedLine(words, sep), []);
  }

  lemma {:induction false} QuotedWordIsText(w: string)
    requires IsText(w)
    ensures IsText(WordText(QuotedWord(w)))
  {
    if |w| <= 1 {
      assert QuotedWord(w)[1..] == [] && WordText([]) == [];
    } else {
      QuotedWordIsText(w[1..]);
      assert QuotedWord(w)[1..] == QuotedWord(w[1..]);
    }
  }

  predicate ItemIsText(item: Item) {
    IsText(item.gap) && IsText(WordText(item.word))
  }

  lemma {:induction false} LineIsText(items: seq<Item>, tail: string)
    requires IsText(tail) && forall k :: 0 <= k < |items| ==> ItemIsText(items[k])
    ensures IsText(LineText(items, tail))
  {
    hide WordText;
    if items != [] {
      assert ItemIsText(items[0]);
      LineIsText(items[1..], tail);
    }
  }

  lemma {:induction false} QuotedItemsAreText(words: seq<string>, sep: char)
    requires IsText([sep]) && forall k :: 0 <= k < |words| ==> IsText(words[k])
    ensures forall k :: 0 <= k < |QuotedLine(words, sep)| ==> ItemIsText(QuotedLine(words, sep)[k])
  {
    hide WordText, QuotedWord, IsText;
    if words != [] {
      QuotedItemsAreText(words[..|words| - 1], sep);
      QuotedWordIsText(words[|words| - 1]);
    }
  }

  /** The quoted line contains no 0 bytes if the words contain none. */
  lemma QuotedLineIsText(words: seq<string>, sep: char)
    requires IsText([sep]) && forall k :: 0 <= k < |words| ==> IsText(words[k])
    ensures IsText(LineText(QuotedLine(words, sep), []))
  {
    QuotedItemsAreText(words, sep);
    LineIsText(QuotedLine(words, sep), []);
  }

  /** Octal codes inside double quotes get decoded. */
  lemma OctalWord(rules: Rules, w: string)
    requires rules.bslMode >= 1 && !IsSep(rules, '"') && IsText(w)
    ensures Words(rules, "\"" + OctalText(w) + "\"") == Some([w])
  {
    hide IsSep, Decode, Words;
    OctalRoundTrip(w);
    NoQuoteInOctal(w);
    LineOfOneSegment(rules, Double(OctalText(w)));
  }

  lemma LineOfOneSegment(rules: Rules, g: Segment)
    requires SegmentOk(rules, g)
    ensures Words(rules, SegmentText(g)) == Some([SegmentValue(rules, g)])
  {
    hide SegmentOk, SegmentText, SegmentValue, WordText, WordValue, Words;
    var items := [Item([], [g])];
    OneSegment(rules, g);
    ComposedLine(rules, items, []);
    assert items[1..] == [];
    assert LineValue(rules, items[1..]) == [] && LineText(items[1..], []) == [];
    assert [] + SegmentText(g) + [] == SegmentText(g) == LineText(items, []);
    assert LineValue(rules, items) == [WordValue(rules, [g])];
  }

  lemma OneSegment(rules: Rules, g: Segment)
    ensures WordText([g]) == SegmentText(g) && WordValue(rules, [g]) == SegmentValue(rules, g)
  {
    hide SegmentText, SegmentValue;
    Prepended(rules, g, []);
    EmptyWord(rules);
    assert [g] + [] == [g];
    assert SegmentText(g) + [] == SegmentText(g) && SegmentValue(rules, g) + [] == SegmentValue(rules, g);
  }

  lemma {:induction false} NoQuoteInOctal(w: string)
    requires IsText(w)
    ensures '"' !in OctalText(w)
  {
    if w != [] {
      NoQuoteInOctal(w[1..]);
    }
  }

  // ---------- quotes and separators

  /** Backslash codes get decoded in double quotes by modes 1 and 2, in single quotes by mode 2. */
  lemma QuotedValue(rules: Rules, t: string)
    requires !IsSep(rules, '"') && !IsSep(rules, '\'')
    ensures '"' !in t ==> Words(rules, "\"" + t + "\"") == Some([if rules.bslMode == 0 then t else Decode(t)])
    ensures '\'' !in t ==> Words(rules, "'" + t + "'") == Some([if rules.bslMode == 2 then Decode(t) else t])
  {
    hide IsSep, Words, Decode;
    if '"' !in t {
      LineOfOneSegment(rules, Double(t));
    }
    if '\'' !in t {
      LineOfOneSegment(rules, Single(t));
    }
  }

  /** White space separates words, or the given characters if there are any. */
  predicate Separates(rules: Rules, c: char) {
    if rules.separators == [] then c == ' ' || c == '\t' || c == '\n' || c == 11 as char || c == 12 as char || c == '\r'
    else c in rules.separators
  }

  predicate IsPlain(rules: Rules, t: string) {
    t != [] && forall k :: 0 <= k < |t| ==> !Separates(rules, t[k]) && t[k] != '"' && t[k] != '\''
  }

  lemma {:induction false} PlainSegments(rules: Rules, t: string) returns (word: seq<Segment>)
    requires forall k :: 0 <= k < |t| ==> !Separates(rules, t[k]) && t[k] != '"' && t[k] != '\''
    ensures WordText(word) == t && WordValue(rules, word) == t && |word| == |t| && SegmentsOk(rules, word)
  {
    hide WordText, WordValue;
    if t == [] {
      word := [];
      EmptyWord(rules);
    } else {
      var more := PlainSegments(rules, t[1..]);
      word := [Plain(t[0])] + more;
      Prepended(rules, Plain(t[0]), more);
      assert [t[0]] + t[1..] == t;
    }
  }

  lemma PlainLine(rules: Rules, t: string)
    requires IsPlain(rules, t)
    ensures Words(rules, t) == Some([t])
  {
    hide Words, WordText, WordValue, SegmentOk, IsSep;
    var word := PlainSegments(rules, t);
    WordsOfWord(rules, word, []);
    NoWords(rules);
    assert WordText(word) + [] == t && [t] + [] == [t];
  }

  /** A character between two plain words splits the line exactly if it is a separator. */
  lemma SeparatorSplits(rules: Rules, a: string, c: char, b: string)
    requires IsPlain(rules, a) && IsPlain(rules, b) && c != '"' && c != '\''
    ensures Words(rules, a + [c] + b) == Some(if Separates(rules, c) then [a, b] else [a + [c] + b])
  {
    hide Words, WordText, WordValue, SegmentOk;
    if Separates(rules, c) {
      var word := PlainSegments(rules, a);
      WordsOfWord(rules, word, [c] + b);
      SkipSeps(rules, [c], b);
      PlainLine(rules, b);
      assert WordText(word) + ([c] + b) == a + [c] + b && [a] + [b] == [a, b];
    } else {
      PlainLine(rules, a + [c] + b);
    }
  }
}
