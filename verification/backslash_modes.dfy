/** How mode 2 of backslash interpretation differs from its description in frontend/frontend_pipes_xorriso.c. */
module BackslashModes {
  import opened Backslash
  import opened LineParser

  // ---------- texts with codes

  /** Some backslash is followed by a code. */
  predicate HasCode(t: string) {
    exists i :: 0 <= i < |t| && t[i] == '\\' && CodeOf(t[i + 1..]).Code?
  }

  lemma HasCodeStep(t: string)
    requires t != []
    ensures HasCode(t) <==> (t[0] == '\\' && CodeOf(t[1..]).Code?) || HasCode(t[1..])
  {
    hide CodeOf;
    if HasCode(t) && !(t[0] == '\\' && CodeOf(t[1..]).Code?) {
      var i :| 0 <= i < |t| && t[i] == '\\' && CodeOf(t[i + 1..]).Code?;
      assert t[1..][i - 1] == '\\' && t[1..][i..] == t[i + 1..];
    }
    if HasCode(t[1..]) {
      var i :| 0 <= i < |t[1..]| && t[1..][i] == '\\' && CodeOf(t[1..][i + 1..]).Code?;
      assert t[i + 1] == '\\' && t[1..][i + 1..] == t[i + 2..];
    }
  }

  /** Decoding makes a text shorter exactly if it contains a code. */
  lemma {:induction false} DecodeShortens(t: string)
    ensures if HasCode(t) then |Decode(t)| < |t| else Decode(t) == t
  {
    hide CodeOf, HasCode;
    if t == [] {
      NoCodeInEmpty();
    } else {
      HasCodeStep(t);
      DecodeShortens(t[1..]);
    }
  }

  lemma NoCodeInEmpty()
    ensures !HasCode([])
  {}

  // ---------- parts of words

  /** Unquoted characters in a row, or a quoted text. */
  datatype Part = Run(text: string) | InDoubles(text: string) | InSingles(text: string)

  function PartOf(g: Segment): Part {
    match g
    case Plain(c) => Run([c])
    case Double(text) => InDoubles(text)
    case Single(text) => InSingles(text)
  }

  function Joined(g: Segment, parts: seq<Part>): seq<Part> {
    if g.Plain? && parts != [] && parts[0].Run? then [Run([g.c] + parts[0].text)] + parts[1..] else [PartOf(g)] + parts
  }

  function Parts(word: seq<Segment>): seq<Part> {
    if word == [] then [] else Joined(word[0], Parts(word[1..]))
  }

  /** What the code does in mode 2. */
  function Value(part: Part): string {
    if part.Run? then part.text else Decode(part.text)
  }

  /** What the comment at the start of Sfile_sep_make_argv promises for mode 2. */
  function Promised(part: Part): string {
    if part.InSingles? then part.text else Decode(part.text)
  }

  function Values(parts: seq<Part>): string {
    if parts == [] then [] else Value(parts[0]) + Values(parts[1..])
  }

  function PromisedValues(parts: seq<Part>): string {
    if parts == [] then [] else Promised(parts[0]) + PromisedValues(parts[1..])
  }

  lemma JoinedValue(rules: Rules, g: Segment, parts: seq<Part>)
    requires rules.bslMode == 2
    ensures Values(Joined(g, parts)) == SegmentValue(rules, g) + Values(parts)
  {
    hide Decode;
    assert Joined(g, parts)[1..] == if g.Plain? && parts != [] && parts[0].Run? then parts[1..] else parts;
  }

  lemma {:induction false} ValueOfParts(rules: Rules, word: seq<Segment>)
    requires rules.bslMode == 2
    ensures WordValue(rules, word) == Values(Parts(word))
  {
    hide Decode, SegmentValue, Joined;
    if word != [] {
      ValueOfParts(rules, word[1..]);
      JoinedValue(rules, word[0], Parts(word[1..]));
    }
  }

  // ---------- where comment and code agree

  predicate RunHasCode(parts: seq<Part>) {
    exists k :: 0 <= k < |parts| && parts[k].Run? && HasCode(parts[k].text)
  }

  predicate SingleHasCode(parts: seq<Part>) {
    exists k :: 0 <= k < |parts| && parts[k].InSingles? && HasCode(parts[k].text)
  }

  /** A part gets its promised value exactly if it is in double quotes or contains no code. */
  lemma PartAsPromised(part: Part)
    ensures Value(part) == Promised(part) <==> part.InDoubles? || !HasCode(part.text)
  {
    DecodeShortens(part.text);
  }

  lemma CodesOfRest(parts: seq<Part>)
    requires parts != []
    ensures RunHasCode(parts) <==> (parts[0].Run? && HasCode(parts[0].text)) || RunHasCode(parts[1..])
    ensures SingleHasCode(parts) <==> (parts[0].InSingles? && HasCode(parts[0].text)) || SingleHasCode(parts[1..])
  {
    hide HasCode;
    var rest := parts[1..];
    assert forall k :: 0 <= k < |rest| ==> rest[k] == parts[k + 1];
    assert forall k :: 0 < k < |parts| ==> parts[k] == rest[k - 1];
  }

  /** Codes in one kind of parts make only one of both values shorter. */
  lemma {:induction false} OneKindOfCodes(parts: seq<Part>)
    ensures !SingleHasCode(parts) && RunHasCode(parts) ==> |PromisedValues(parts)| < |Values(parts)|
    ensures !RunHasCode(parts) && SingleHasCode(parts) ==> |Values(parts)| < |PromisedValues(parts)|
    ensures !RunHasCode(parts) && !SingleHasCode(parts) ==> Values(parts) == PromisedValues(parts)
  {
    hide Decode, HasCode, RunHasCode, SingleHasCode;
    if parts == [] {
      NoCodes();
    } else {
      CodesOfRest(parts);
      DecodeShortens(parts[0].text);
      OneKindOfCodes(parts[1..]);
    }
  }

  lemma NoCodes()
    ensures !RunHasCode([]) && !SingleHasCode([])
  {}

  /** Unless there are codes in unquoted and in single quoted parts, a word gets its promised value exactly if there are
      no codes in both. */
  lemma WordAsPromised(rules: Rules, word: seq<Segment>)
    requires rules.bslMode == 2
    ensures var parts := Parts(word);
      && (!RunHasCode(parts) && !SingleHasCode(parts) ==> WordValue(rules, word) == PromisedValues(parts))
      && (!(RunHasCode(parts) && SingleHasCode(parts)) ==>
            (WordValue(rules, word) == PromisedValues(parts) <==> !RunHasCode(parts) && !SingleHasCode(parts)))
  {
    hide RunHasCode, SingleHasCode, WordValue;
    ValueOfParts(rules, word);
    OneKindOfCodes(Parts(word));
  }

  // ---------- instances

  const MODE2 := Rules([], 2)

  lemma {:induction false} PlainText(t: string) returns (word: seq<Segment>)
    requires forall k :: 0 <= k < |t| ==> !IsSep(MODE2, t[k]) && t[k] != '"' && t[k] != '\''
    ensures WordText(word) == t && WordValue(MODE2, word) == t && |word| == |t| && SegmentsOk(MODE2, word)
    ensures Parts(word) == if t == [] then [] else [Run(t)]
  {
    hide IsSep;
    if t == [] {
      word := [];
    } else {
      var more := PlainText(t[1..]);
      word := [Plain(t[0])] + more;
      assert word[1..] == more && [t[0]] + t[1..] == t;
      assert t[1..] == [] ==> t == [t[0]];
    }
  }

  lemma LetterA()
    ensures Decode("\\101") == "A"
  {
    OctalRoundTrip("A");
    var n := 'A' as int;
    assert n / 64 == 1 && n / 8 % 8 == 0 && n % 8 == 1;
    assert OctalCode('A') == "\\101" && "A"[1..] == [] && OctalText([]) == [];
    assert OctalText("A") == "\\101";
  }

  /** Without quotes a code stays as it is, in single quotes it gets decoded. The comment promises the contrary. */
  lemma OctalLetterInMode2()
    ensures Words(MODE2, "\\101") == Some(["\\101"]) && Promised(Run("\\101")) == "A"
    ensures Words(MODE2, "'\\101'") == Some(["A"]) && Promised(InSingles("\\101")) == "\\101"
  {
    hide Words, Decode;
    LetterA();
    var word := PlainText("\\101");
    WordAsLine(word);
    LineOfOneSegment(MODE2, Single("\\101"));
    assert SegmentText(Single("\\101")) == "'\\101'";
  }

  lemma WordAsLine(word: seq<Segment>)
    requires word != [] && SegmentsOk(MODE2, word)
    ensures Words(MODE2, WordText(word)) == Some([WordValue(MODE2, word)])
  {
    hide Words, WordText, WordValue, SegmentOk;
    var items := [Item([], word)];
    ComposedLine(MODE2, items, []);
    assert items[1..] == [];
    assert LineValue(MODE2, items[1..]) == [] && LineText(items[1..], []) == [];
    assert [] + WordText(word) + [] == WordText(word) == LineText(items, []);
    assert LineValue(MODE2, items) == [WordValue(MODE2, word)];
  }

  /** Codes in both kinds of parts may make up for each other. */
  lemma TwoDeviationsMayCancel()
    ensures var word := [Plain('\\'), Plain('\\'), Single("\\\\")];
      && RunHasCode(Parts(word)) && SingleHasCode(Parts(word))
      && WordValue(MODE2, word) == PromisedValues(Parts(word)) == "\\\\\\"
  {
    var word := [Plain('\\'), Plain('\\'), Single("\\\\")];
    hide Decode, CodeOf, HasCode;
    BackslashPair();
    ValueOfParts(MODE2, word);
    assert word[1..] == [Plain('\\'), Single("\\\\")] && word[1..][1..] == [Single("\\\\")]
      && word[1..][1..][1..] == [];
    assert Parts(word[1..][1..]) == [InSingles("\\\\")] by {
      assert Parts([]) == [] && Joined(Single("\\\\"), []) == [InSingles("\\\\")];
    }
    assert Parts(word[1..]) == [Run("\\"), InSingles("\\\\")];
    assert ['\\'] + "\\" == "\\\\";
    assert Parts(word) == [Run("\\\\"), InSingles("\\\\")];
    TwoParts(Run("\\\\"), InSingles("\\\\"));
  }

  lemma TwoParts(a: Part, b: Part)
    ensures Values([a, b]) == Value(a) + Value(b) && PromisedValues([a, b]) == Promised(a) + Promised(b)
    ensures a.Run? && HasCode(a.text) ==> RunHasCode([a, b])
    ensures b.InSingles? && HasCode(b.text) ==> SingleHasCode([a, b])
  {
    hide Decode, HasCode;
    var parts := [a, b];
    assert parts[0] == a && parts[1] == b;
    assert parts[1..] == [b] && [b][1..] == [];
    assert Values([b]) == Value(b) + [] == Value(b) && PromisedValues([b]) == Promised(b) + [] == Promised(b);
  }

  lemma BackslashPair()
    ensures Decode("\\\\") == "\\" && HasCode("\\\\")
  {
    var t := "\\\\";
    assert t[1..] == "\\" && CodeOf("\\") == Code('\\', 1) && t[2..] == [];
    assert t[0 + 1..] == t[1..];
    assert Decode(t) == ['\\'] + Decode(t[2..]);
  }
}
