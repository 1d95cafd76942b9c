/** The two passes of Sfile_sep_make_argv over a line, with a work buffer and an argument list in memory. */
module ArgvMaker {
  import opened Backslash
  import opened LineParser

  const SFILEADR := 4096

  method Strlen(buf: array<char>, ghost text: string) returns (n: nat)
    requires Holds(buf[..], 0, text) && IsText(text)
    ensures n == |text|
  {
    n := 0;
    assert buf[..][..|text|] == text;
    while buf[n] != '\0'
      invariant n <= |text|
      decreases |text| - n
    {
      assert n < |text|;
      n := n + 1;
    }
  }

  /** strncpy or strncat of a piece of the line to the end of the text in the buffer. */
  method Append(buf: array<char>, ghost text: string, line: string, from: nat, to: nat) returns (bufl: nat)
    requires Holds(buf[..], 0, text) && IsText(text) && from <= to <= |line| && |text| + (to - from) < buf.Length
    modifies buf
    ensures Holds(buf[..], 0, text + line[from..to]) && bufl == |text|
  {
    bufl := Strlen(buf, text);
    var k := 0;
    while k < to - from
      invariant k <= to - from
      invariant buf[..bufl + k] == text + line[from..from + k]
    {
      buf[bufl + k] := line[from + k];
      k := k + 1;
    }
    assert buf[..bufl + k] == text + line[from..to];
    buf[bufl + k] := '\0';
  }

  method Strcpy(dst: array<char>, src: array<char>, ghost text: string)
    requires Holds(src[..], 0, text) && IsText(text) && |text| < dst.Length && src != dst
    modifies dst
    ensures Holds(dst[..], 0, text)
  {
    var n := Strlen(src, text);
    var k := 0;
    while k < n
      invariant k <= n && dst[..k] == src[..k]
    {
      dst[k] := src[k];
      k := k + 1;
    }
    assert src[..n] == text;
    dst[n] := '\0';
  }

  /** Appends a piece of the line and decodes it if desired. */
  method AppendPart(buf: array<char>, ghost text: string, line: string, from: nat, to: nat, decode: bool)
    requires Holds(buf[..], 0, text) && IsText(text) && from <= to <= |line| && |text| + (to - from) < buf.Length
    requires IsText(line[from..to])
    modifies buf
    ensures var part := line[from..to];
      var added := if decode then Decode(part) else part;
      Holds(buf[..], 0, text + added) && IsText(text + added) && |added| <= to - from
  {
    hide Decode;
    ghost var part := line[from..to];
    if to > from {
      var bufl := Append(buf, text, line, from, to);
      if decode {
        assert buf[..bufl + (to - from)] == text + part;
        assert buf[bufl..bufl + (to - from)] == part && buf[..bufl] == text;
        var _ := BslInterpreter(buf, bufl, to - from);
        assert buf[..bufl + |Decode(part)|] == text + Decode(part);
      }
    } else {
      DecodeEmpty();
      assert part == [] && text + [] == text;
    }
  }

  lemma DecodeEmpty()
    ensures Decode([]) == []
  {}

  lemma FindMoves(line: string, from: nat, c: char)
    requires from <= |line|
    ensures Find(line[from..], c) == if from == |line| || line[from] == c then 0 else 1 + Find(line[from + 1..], c)
  {
    if from < |line| {
      assert line[from..][1..] == line[from + 1..];
    }
  }

  /** Looks for a closing quote. */
  method FindClose(line: string, from: nat, quote: char) returns (cpt: nat)
    requires from <= |line|
    ensures cpt == from + Find(line[from..], quote) <= |line|
  {
    hide Find;
    cpt := from;
    FindMoves(line, from, quote);
    while cpt < |line| && line[cpt] != quote
      invariant from <= cpt <= |line| && from + Find(line[from..], quote) == cpt + Find(line[cpt..], quote)
    {
      FindMoves(line, cpt, quote);
      cpt := cpt + 1;
    }
    FindMoves(line, cpt, quote);
  }

  lemma ScanAtQuote(rules: Rules, t: string, word: string)
    requires t != [] && !IsSep(rules, t[0]) && (t[0] == '"' || t[0] == '\'')
    ensures var n := Find(t[1..], t[0]);
      Scan(rules, t, word) == if n == |t| - 1 then Unclosed
        else Scan(rules, t[n + 2..], word + InQuotes(rules, t[0], t[1..n + 1]))
  {
    hide InDouble, InSingle, IsSep, Find;
  }

  lemma ScanQuoted(rules: Rules, line: string, cpt: nat, word: string)
    requires cpt < |line| && !IsSep(rules, line[cpt]) && (line[cpt] == '"' || line[cpt] == '\'')
    ensures var close := cpt + 1 + Find(line[cpt + 1..], line[cpt]);
      if close == |line| then Scan(rules, line[cpt..], word) == Unclosed
      else
        var part := line[cpt + 1..close];
        Scan(rules, line[cpt..], word) == Scan(rules, line[close + 1..], word + InQuotes(rules, line[cpt], part))
  {
    hide Scan, InQuotes, IsSep, Find;
    var t, n := line[cpt..], Find(line[cpt + 1..], line[cpt]);
    ScanAtQuote(rules, t, word);
    assert t[1..] == line[cpt + 1..];
    if n < |t| - 1 {
      assert t[n + 2..] == line[cpt + n + 2..] && t[1..n + 1] == line[cpt + 1..cpt + n + 1];
    }
  }

  function InQuotes(rules: Rules, quote: char, part: string): string {
    if quote == '"' then InDouble(rules, part) else InSingle(rules, part)
  }

  lemma ScanUnquoted(rules: Rules, line: string, start: nat, cpt: nat, text: string)
    requires start <= cpt < |line| && !IsSep(rules, line[cpt]) && line[cpt] != '"' && line[cpt] != '\''
    ensures Scan(rules, line[cpt..], text + line[start..cpt])
      == Scan(rules, line[cpt + 1..], text + line[start..cpt + 1])
  {
    hide IsSep;
    assert line[cpt..][1..] == line[cpt + 1..];
    assert text + line[start..cpt] + [line[cpt]] == text + line[start..cpt + 1];
  }

  /** Takes the part before a quote and the part up to the closing quote. */
  method TakeQuoted(line: string, start: nat, cpt: nat, rules: Rules, buf: array<char>, ghost text: string)
    returns (ok: bool, close: nat, ghost text': string)
    requires IsText(line) && start <= cpt < |line| < buf.Length
    requires !IsSep(rules, line[cpt]) && (line[cpt] == '"' || line[cpt] == '\'')
    requires Holds(buf[..], 0, text) && IsText(text) && |text| <= start
    modifies buf
    ensures var scanned := Scan(rules, line[cpt..], text + line[start..cpt]);
      if ok then
        && cpt < close < |line| && scanned == Scan(rules, line[close + 1..], text')
        && Holds(buf[..], 0, text') && IsText(text') && |text'| <= close + 1
      else scanned == Unclosed
  {
    hide Scan, IsSep, Decode, Find, InQuotes, Holds, IsText;
    PartIsText(line, start, cpt);
    ScanQuoted(rules, line, cpt, text + line[start..cpt]);
    AppendPart(buf, text, line, start, cpt, false);
    text' := text + line[start..cpt];
    close := FindClose(line, cpt + 1, line[cpt]);
    if close == |line| {
      return false, close, text';
    }
    PartIsText(line, cpt + 1, close);
    AppendPart(buf, text', line, cpt + 1, close, rules.bslMode >= if line[cpt] == '"' then 1 else 2);
    InQuotesIs(rules, line[cpt], line[cpt + 1..close]);
    text' := text' + InQuotes(rules, line[cpt], line[cpt + 1..close]);
    ok := true;
  }

  lemma PartIsText(line: string, from: nat, to: nat)
    requires IsText(line) && from <= to <= |line|
    ensures IsText(line[from..to])
  {}

  /** Brings the word which begins at a given position of the line into the buffer. */
  method NextWord(line: string, first: nat, rules: Rules, buf: array<char>) returns (ok: bool, cpt: nat)
    requires IsText(line) && first < |line| < buf.Length
    modifies buf
    ensures var r := Scan(rules, line[first..], []);
      && ok == r.Word?
      && (ok ==> cpt <= |line| && line[cpt..] == r.rest && Holds(buf[..], 0, r.word) && IsText(r.word))
  {
    hide Scan, IsSep, IsText;
    var start := first;
    ghost var text: string := [];
    buf[0] := '\0';
    EmptyText();
    cpt := first;
    assert text + line[start..cpt] == [];
    while cpt < |line| && !IsSep(rules, line[cpt])
      invariant first <= start <= cpt <= |line|
      invariant Holds(buf[..], 0, text) && IsText(text) && |text| <= start
      invariant Scan(rules, line[first..], []) == Scan(rules, line[cpt..], text + line[start..cpt])
    {
      if line[cpt] == '"' || line[cpt] == '\'' {
        ok, cpt, text := TakeQuoted(line, start, cpt, rules, buf, text);
        if !ok {
          return;
        }
        start := cpt + 1;
        assert text + line[start..cpt + 1] == text;
      } else {
        ScanUnquoted(rules, line, start, cpt, text);
      }
      cpt := cpt + 1;
    }
    ScanEnd(rules, line[cpt..], text + line[start..cpt]);
    PartIsText(line, start, cpt);
    AppendPart(buf, text, line, start, cpt, false);
    ok := true;
  }

  lemma EmptyText()
    ensures IsText([])
  {}

  lemma InQuotesIs(rules: Rules, quote: char, part: string)
    ensures InQuotes(rules, quote, part)
      == if rules.bslMode >= (if quote == '"' then 1 else 2) then Decode(part) else part
  {}

  // ---------- passes

  /** Already known words and those which are still to be found. */
  function Joined(got: seq<string>, more: Option<seq<string>>): Option<seq<string>> {
    if more.None? then None else Some(got + more.value)
  }

  predicate AllText(words: seq<string>) {
    forall k :: 0 <= k < |words| ==> IsText(words[k])
  }

  predicate Fit(words: seq<string>, maxl: nat) {
    forall k :: 0 <= k < |words| ==> |words[k]| <= maxl
  }

  lemma WordsStep(rules: Rules, line: string, cpt: nat, got: seq<string>)
    requires cpt < |line|
    ensures var t := line[cpt..];
      if IsSep(rules, line[cpt]) then Words(rules, t) == Words(rules, line[cpt + 1..])
      else
        var r := Scan(rules, t, []);
        Joined(got, Words(rules, t)) == if r.Unclosed? then None
          else Joined(got + [r.word], if r.rest == [] then Some([]) else Words(rules, r.rest[1..]))
  {
    hide Scan, IsSep;
    var t := line[cpt..];
    assert t[1..] == line[cpt + 1..];
    if !IsSep(rules, line[cpt]) && Scan(rules, t, []).Word? {
      var r := Scan(rules, t, []);
      var more := if r.rest == [] then Some([]) else Words(rules, r.rest[1..]);
      if more.Some? {
        assert got + ([r.word] + more.value) == got + [r.word] + more.value;
      }
    }
  }

  /** The memory of an argument list: separate strings, of which the first ones have been filled. */
  ghost predicate Filled(argv: array<array<char>>, buf: array<char>, maxl: nat, got: seq<string>)
    reads argv, argv[..]
  {
    && |got| <= argv.Length
    && (forall k :: 0 <= k < argv.Length ==> argv[k] != buf && argv[k].Length == maxl + 1)
    && (forall j, k :: 0 <= j < k < argv.Length ==> argv[j] != argv[k])
    && (forall k :: 0 <= k < |got| ==> Holds(argv[k][..], 0, got[k]))
  }

  /** argv[argc] becomes the word in the buffer. */
  method Store(argv: array<array<char>>, argc: nat, buf: array<char>, ghost maxl: nat,
               ghost got: seq<string>, ghost word: string)
    requires Filled(argv, buf, maxl, got) && argc == |got| < argv.Length
    requires Holds(buf[..], 0, word) && IsText(word) && |word| <= maxl
    modifies argv[argc]
    ensures Filled(argv, buf, maxl, got + [word])
    ensures Holds(buf[..], 0, word)
  {
    hide Holds, IsText;
    Strcpy(argv[argc], buf, word);
    ghost var all := got + [word];
    assert all[argc] == word && forall k :: 0 <= k < argc ==> all[k] == got[k];
  }

  /** What a pass finds in the line: the words after those of "base". */
  ghost predicate Found(rules: Rules, line: string, cpt: nat, base: seq<string>, got: seq<string>)
    requires cpt <= |line|
  {
    AllText(got) && Joined(base, Words(rules, line)) == Joined(got, Words(rules, line[cpt..]))
  }

  lemma FoundSep(rules: Rules, line: string, cpt: nat, base: seq<string>, got: seq<string>)
    requires cpt < |line| && Found(rules, line, cpt, base, got) && IsSep(rules, line[cpt])
    ensures Found(rules, line, cpt + 1, base, got)
  {
    hide Words, IsSep;
    WordsStep(rules, line, cpt, got);
  }

  /** After a word, the separator behind it gets skipped. */
  lemma FoundWord(rules: Rules, line: string, cpt: nat, base: seq<string>, got: seq<string>, next: nat)
    requires cpt < |line| && Found(rules, line, cpt, base, got) && !IsSep(rules, line[cpt])
    requires var r := Scan(rules, line[cpt..], []);
      r.Word? ==> next <= |line| && line[next..] == r.rest && IsText(r.word)
    ensures var r := Scan(rules, line[cpt..], []);
      if r.Unclosed? then Joined(base, Words(rules, line)) == None
      else Found(rules, line, if next < |line| then next + 1 else next, base, got + [r.word])
  {
    hide Words, IsSep, Scan, IsText;
    WordsStep(rules, line, cpt, got);
    var r := Scan(rules, line[cpt..], []);
    if r.Word? && next < |line| {
      assert r.rest[1..] == line[next + 1..];
    } else if r.Word? {
      assert line[next..] == [];
      NoWords(rules);
    }
  }

  lemma JoinedPrefix(got: seq<string>, more: Option<seq<string>>, all: seq<string>)
    requires Joined(got, more) == Some(all)
    ensures got <= all
  {}

  /** One pass over the line. Pass 0 determines number and maximum length of words. Pass 1 stores the words. */
  method Pass(pass: nat, line: string, rules: Rules, progname: array<char>, ghost name: string, withName: bool,
              buf: array<char>, argv: array<array<char>>, ghost limit: nat, ghost all: seq<string>)
    returns (ok: bool, argc: nat, maxl: nat, ghost got: seq<string>)
    requires pass < 2 && IsText(line) && |line| < buf.Length && Holds(progname[..], 0, name) && IsText(name)
      && progname != buf
    requires pass == 1 ==>
      && Joined(WithName(name, withName), Words(rules, line)) == Some(all) && Fit(all, limit) && |all| == argv.Length
      && Filled(argv, buf, limit, []) && progname !in argv[..]
    modifies buf
    modifies if pass == 1 then argv[..] else []
    ensures var found := Joined(WithName(name, withName), Words(rules, line));
      if ok then found == Some(got) && argc == |got| && AllText(got) else found == None
    ensures ok && pass == 0 ==> Fit(got, maxl)
    ensures ok && pass == 1 ==> Filled(argv, buf, limit, all)
    ensures Holds(progname[..], 0, name)
  {
    hide Holds, IsText, Words, Scan, IsSep, Joined;
    ghost var base := WithName(name, withName);
    argc, maxl, got := 0, 0, [];
    if withName {
      if pass == 0 {
        maxl := Strlen(progname, name);
      } else {
        JoinedPrefix(base, Words(rules, line), all);
        assert all[0] == name && argv[0] in argv[..];
        Strcpy(argv[0], progname, name);
      }
      argc, got := 1, [name];
    }
    var cpt := 0;
    assert line[0..] == line;
    ok := true;
    while cpt < |line|
      invariant cpt <= |line| && Found(rules, line, cpt, base, got) && argc == |got|
      invariant pass == 0 ==> Fit(got, maxl)
      invariant pass == 1 ==> Filled(argv, buf, limit, got)
      invariant Holds(progname[..], 0, name)
    {
      if IsSep(rules, line[cpt]) {
        FoundSep(rules, line, cpt, base, got);
        cpt := cpt + 1;
      } else {
        var next;
        ghost var r := Scan(rules, line[cpt..], []);
        ok, next := NextWord(line, cpt, rules, buf);
        FoundWord(rules, line, cpt, base, got, next);
        if !ok {
          return;
        }
        cpt := if next < |line| then next + 1 else next;
        if pass == 0 {
          var l := Strlen(buf, r.word);
          if l > maxl {
            maxl := l;
          }
        } else {
          JoinedPrefix(got + [r.word], Words(rules, line[cpt..]), all);
          assert all[|got|] == r.word;
          Store(argv, argc, buf, limit, got, r.word);
        }
        argc, got := argc + 1, got + [r.word];
      }
    }
    assert line[cpt..] == [];
    NoWords(rules);
    JoinedNothing(got);
  }

  lemma JoinedNothing(got: seq<string>)
    ensures Joined(got, Some([])) == Some(got)
  {
    assert got + [] == got;
  }

  function WithName(name: string, withName: bool): seq<string> {
    if withName then [name] else []
  }

  /** All strings of the list have the same amount of memory and hold the given words. */
  ghost predicate Stores(argv: array<array<char>>, maxl: nat, words: seq<string>)
    reads argv, argv[..]
  {
    |words| == argv.Length && forall k :: 0 <= k < argv.Length ==>
      argv[k].Length == maxl + 1 && Holds(argv[k][..], 0, words[k])
  }

  /** Sfile_sep_make_argv. The result is 0 if a closing quote is missing. Else all words are in the argument list. */
  method MakeArgv(progname: array<char>, ghost name: string, withName: bool, line: string, rules: Rules)
    returns (ret: int, argv: array<array<char>>)
    requires IsText(line) && Holds(progname[..], 0, name) && IsText(name)
    ensures var words := Joined(WithName(name, withName), Words(rules, line));
      if words.None? then ret == 0 && argv.Length == 0
      else
        && ret == 1 && argv.Length == |words.value|
        && exists maxl: nat :: Fit(words.value, maxl) && Stores(argv, maxl, words.value)
  {
    hide Holds, IsText, Words, Joined;
    ghost var maxl: nat;
    var buf := new char[|line| + SFILEADR](_ => '\0');
    argv := new array<char>[0];
    var ok, argc, size;
    ghost var words;
    ok, argc, size, words := Pass(0, line, rules, progname, name, withName, buf, argv, 0, []);
    if !ok {
      return 0, argv;
    }
    maxl := size;
    argv := NewArgv(argc, size);
    assert progname !in argv[..];
    ghost var all := words;
    ok, argc, size, words := Pass(1, line, rules, progname, name, withName, buf, argv, maxl, words);
    assert Stores(argv, maxl, all);
    ret := 1;
  }

  /** Any list of words without 0 bytes comes back from the line in which each character is quoted. */
  method ArgvOfQuotedLine(progname: array<char>, ghost name: string, withName: bool,
                          words: seq<string>, sep: char, rules: Rules)
    returns (ret: int, argv: array<array<char>>)
    requires Holds(progname[..], 0, name) && IsText(name) && AllText(words) && IsText([sep])
    requires IsSep(rules, sep) && !IsSep(rules, '"') && !IsSep(rules, '\'')
    ensures ret == 1 && exists maxl: nat :: Stores(argv, maxl, WithName(name, withName) + words)
  {
    hide Words, IsSep, Holds, LineText, QuotedLine;
    QuotedLineIsText(words, sep);
    RoundTrip(rules, words, sep);
    ret, argv := MakeArgv(progname, name, withName, LineText(QuotedLine(words, sep), []), rules);
  }

  /** Memory for argc strings. */
  method NewArgv(argc: nat, maxl: nat) returns (argv: array<array<char>>)
    ensures fresh(argv) && argv.Length == argc
    ensures forall k :: 0 <= k < argc ==> fresh(argv[k]) && argv[k].Length == maxl + 1
    ensures forall j, k :: 0 <= j < k < argc ==> argv[j] != argv[k]
  {
    var none := new char[0];
    argv := new array<char>[argc](_ => none);
    var i := 0;
    while i < argc
      invariant i <= argc
      invariant forall k :: 0 <= k < i ==> fresh(argv[k]) && argv[k].Length == maxl + 1
      invariant forall j, k :: 0 <= j < k < i ==> argv[j] != argv[k]
    {
      argv[i] := new char[maxl + 1](_ => '\0');
      i := i + 1;
    }
  }
}
