/** parseline of tshlab/tsh.c: an in-place tokenizer, against a parser on strings and a renderer it inverts. */
module Parseline {
  const MAXLINE: nat := 1024
  const MAXARGS: nat := 128
  const NUL: char := '\0'
  const DELIMS: set<char> := {' ', '\t', '\r', '\n'}

  datatype Option<T> = None | Some(value: T)

  datatype Builtin = NoBuiltin | Quit | Jobs | Bg | Fg

  // ---- The parser on strings --------------------------------------------------

  datatype Tokens = Tokens(argv: seq<string>, infile: Option<string>, outfile: Option<string>)

  // What the token being read is for: the two bits of parsing_state.
  datatype Target = Target(input: bool, output: bool)

  datatype Scanned = Malformed | Scanned(tokens: Tokens, target: Target)

  datatype Result =
    | Error
    | Blank
    | Command(tokens: Tokens, builtin: Builtin, background: bool)

  const ARGUMENT: Target := Target(false, false)
  const NOTHING: Tokens := Tokens([], None, None)

  // The first position from i on whose character is (or is not) one of these, or |s|.
  function Index(s: string, i: nat, chars: set<char>, member: bool): (r: nat)
    requires i <= |s|
    ensures i <= r <= |s|
    decreases |s| - i
  {
    if i == |s| || ((s[i] in chars) <==> member) then i else Index(s, i + 1, chars, member)
  }

  // A finished token goes where the target says.
  function Record(t: Tokens, target: Target, text: string): Option<Tokens> {
    if target == ARGUMENT then Some(t.(argv := t.argv + [text]))
    else if target == Target(true, false) then Some(t.(infile := Some(text)))
    else if target == Target(false, true) then Some(t.(outfile := Some(text)))
    else None
  }

  function Scan(s: string, i: nat, target: Target, t: Tokens): Scanned
    decreases |s| + 1 - i
  {
    if i >= |s| then Scanned(t, target)
    else ScanToken(s, Index(s, i, DELIMS, false), target, t)
  }

  // The same from a position that is not white space.
  function ScanToken(s: string, b: nat, target: Target, t: Tokens): Scanned
    requires b <= |s|
    decreases |s| + 1 - b, 1
  {
    if b == |s| then Scanned(t, target)
    else if s[b] == '<' then
      if t.infile.Some? then Malformed else Scan(s, b + 1, target.(input := true), t)
    else if s[b] == '>' then
      if t.outfile.Some? then Malformed else Scan(s, b + 1, target.(output := true), t)
    else if s[b] == '\'' || s[b] == '\"' then
      var e := Index(s, b + 1, {s[b]}, true);
      if e == |s| then Malformed else Store(s, b + 1, e, target, t)
    else
      Store(s, b, Index(s, b, DELIMS, true), target, t)
  }

  function Store(s: string, b: nat, e: nat, target: Target, t: Tokens): Scanned
    requires b <= e <= |s|
    decreases |s| + 1 - e, 0
  {
    var r := Record(t, target, s[b..e]);
    if r.None? then Malformed
    else if |r.value.argv| >= MAXARGS - 1 then Scanned(r.value, ARGUMENT)
    else Scan(s, e + 1, ARGUMENT, r.value)
  }

  function BuiltinOf(name: string): Builtin {
    if name == "quit" then Quit
    else if name == "jobs" then Jobs
    else if name == "bg" then Bg
    else if name == "fg" then Fg
    else NoBuiltin
  }

  // b is the builtin of this name, and none unless it is one of the four.
  predicate IsBuiltin(name: string, b: Builtin) {
    && (b == Quit <==> name == "quit") && (b == Jobs <==> name == "jobs")
    && (b == Bg <==> name == "bg") && (b == Fg <==> name == "fg")
    && (b == NoBuiltin <==> name !in {"quit", "jobs", "bg", "fg"})
  }

  lemma BuiltinIs(name: string)
    ensures IsBuiltin(name, BuiltinOf(name))
  {
    assert "bg"[0] != "fg"[0] && "quit"[0] != "jobs"[0];
  }

  predicate Ampersand(text: string) {
    text != "" && text[0] == '&'
  }

  function Finish(t: Tokens): Result {
    if t.argv == [] then Blank
    else
      var last := |t.argv| - 1;
      if Ampersand(t.argv[last]) then Command(t.(argv := t.argv[..last]), BuiltinOf(t.argv[0]), true)
      else Command(t, BuiltinOf(t.argv[0]), false)
  }

  function Parse(s: string): Result {
    var r := Scan(s, 0, ARGUMENT, NOTHING);
    if r.Malformed? || r.target != ARGUMENT then Error else Finish(r.tokens)
  }

  // ---- Rendering, and what parsing makes of it --------------------------------

  // How a word is written: as it is, or between quotes.
  datatype Style = Bare | Single | Double

  datatype Word = Word(style: Style, text: string)

  const SPECIAL: set<char> := {'<', '>', '\'', '\"'}

  function Mark(style: Style): char {
    if style == Single then '\'' else '\"'
  }

  function Show(w: Word): string {
    if w.style == Bare then w.text else [Mark(w.style)] + w.text + [Mark(w.style)]
  }

  // The style fits the text. Between quotes anything can stand but the quote itself.
  ghost predicate Printable(w: Word) {
    && NUL !in w.text
    && if w.style == Bare then w.text != "" && w.text[0] !in SPECIAL && forall c | c in w.text :: c !in DELIMS
       else Mark(w.style) !in w.text
  }

  function Words(ws: seq<Word>): string {
    if ws == [] then "" else " " + Show(ws[0]) + Words(ws[1..])
  }

  function File(mark: string, file: Option<Word>): string {
    match file
    case None => ""
    case Some(w) => mark + " " + Show(w)
  }

  // A command line, from its words, files and background mark.
  function Render(ws: seq<Word>, infile: Option<Word>, outfile: Option<Word>, background: bool): string
    requires ws != []
  {
    Show(ws[0]) + Words(ws[1..]) + File(" <", infile) + File(" >", outfile) + if background then " &" else ""
  }

  function Texts(ws: seq<Word>): (r: seq<string>)
    ensures |r| == |ws| && forall k {:trigger r[k]} | 0 <= k < |r| :: r[k] == ws[k].text
  {
    if ws == [] then [] else [ws[0].text] + Texts(ws[1..])
  }

  function FileText(file: Option<Word>): Option<string> {
    match file
    case None => None
    case Some(w) => Some(w.text)
  }

  // The next thing on the line, if any, is set off by a blank.
  predicate BlankLed(rest: string) {
    rest == "" || rest[0] == ' '
  }

  lemma {:induction false} IndexIs(s: string, i: nat, chars: set<char>, member: bool, e: nat)
    requires i <= e < |s| && ((s[e] in chars) <==> member)
    requires forall k {:trigger s[k]} | i <= k < e :: (s[k] in chars) <==> !member
    ensures Index(s, i, chars, member) == e
    decreases e - i
  {
    if i < e {
      IndexIs(s, i + 1, chars, member, e);
    }
  }

  // The suffix of s from i on starts with these pieces.
  lemma SuffixAt(s: string, i: nat, a: string, b: string)
    requires i <= |s| && s[i..] == a + b
    ensures i + |a| <= |s| && s[i..i + |a|] == a && s[i + |a|..] == b
  {
    assert s[i..][..|a|] == a && s[i..][|a|..] == b;
  }

  // Scanning from i with target and t comes to the same as scanning from j with target' and t'.
  ghost predicate Leads(s: string, i: nat, target: Target, t: Tokens, j: nat, target': Target, t': Tokens) {
    Scan(s, i, target, t) == Scan(s, j, target', t')
  }

  lemma Onward(s: string, i: nat, a: Target, t: Tokens, j: nat, b: Target, t': Tokens, k: nat, c: Target, t'': Tokens)
    requires Leads(s, i, a, t, j, b, t') && Leads(s, j, b, t', k, c, t'')
    ensures Leads(s, i, a, t, k, c, t'')
  {
  }

  // A quoted token between b and e, after white space from i on.
  lemma ScanQuotedAt(s: string, i: nat, b: nat, e: nat, mark: char, target: Target, t: Tokens)
    requires i < b <= e < |s| && s[b - 1] == mark && s[e] == mark && mark in {'\'', '\"'}
    requires forall k {:trigger s[k]} | i <= k < b - 1 :: s[k] in DELIMS
    requires forall k {:trigger s[k]} | b <= k < e :: s[k] != mark
    ensures Scan(s, i, target, t) == Store(s, b, e, target, t)
  {
    IndexIs(s, i, DELIMS, false, b - 1);
    IndexIs(s, b, {mark}, true, e);
  }

  // A bare token between b and e, after white space from i on.
  lemma ScanBareAt(s: string, i: nat, b: nat, e: nat, target: Target, t: Tokens)
    requires i <= b < e <= |s| && s[b] !in SPECIAL && (e < |s| ==> s[e] in DELIMS)
    requires forall k {:trigger s[k]} | i <= k < b :: s[k] in DELIMS
    requires forall k {:trigger s[k]} | b <= k < e :: s[k] !in DELIMS
    ensures Scan(s, i, target, t) == Store(s, b, e, target, t)
  {
    IndexIs(s, i, DELIMS, false, b);
    if e < |s| {
      IndexIs(s, b, DELIMS, true, e);
    } else {
      IndexNone(s, b, DELIMS, true);
    }
  }

  lemma {:induction false} IndexNone(s: string, i: nat, chars: set<char>, member: bool)
    requires i <= |s| && forall k {:trigger s[k]} | i <= k < |s| :: (s[k] in chars) <==> !member
    ensures Index(s, i, chars, member) == |s|
    decreases |s| - i
  {
    if i < |s| {
      IndexNone(s, i + 1, chars, member);
    }
  }

  // A blank, or the end of the line, makes no difference to what follows.
  lemma SkipBlank(s: string, e: nat, target: Target, t: Tokens)
    requires e <= |s| && (e < |s| ==> s[e] in DELIMS)
    ensures Scan(s, e + 1, target, t) == Scan(s, e, target, t)
  {
    if e + 1 < |s| {
      assert Index(s, e, DELIMS, false) == Index(s, e + 1, DELIMS, false);
    } else if e + 1 == |s| {
      assert Index(s, e, DELIMS, false) == |s|;
    }
  }

  lemma Regroup(a: string, b: string, c: string, d: string)
    ensures a + b + c + d == a + (b + (c + d))
  {
  }

  // The same where the first piece is one character.
  lemma CharAt(s: string, i: nat, c: char, rest: string)
    requires i <= |s| && s[i..] == [c] + rest
    ensures i < |s| && s[i] == c && s[i + 1..] == rest
  {
    SuffixAt(s, i, [c], rest);
    assert s[i..][0] == c;
  }

  lemma GapBlank(s: string, i: nat, e: nat, gap: string)
    requires i <= e <= |s| && s[i..e] == gap && forall c | c in gap :: c in DELIMS
    ensures forall k {:trigger s[k]} | i <= k < e :: s[k] in DELIMS
  {
    forall k {:trigger s[k]} | i <= k < e ensures s[k] in DELIMS {
      assert s[i..e][k - i] in gap;
    }
  }

  lemma TextLacks(s: string, b: nat, e: nat, text: string, c: char)
    requires b <= e <= |s| && s[b..e] == text && c !in text
    ensures forall k {:trigger s[k]} | b <= k < e :: s[k] != c
  {
    forall k {:trigger s[k]} | b <= k < e ensures s[k] != c {
      assert s[b..e][k - b] in text;
    }
  }

  lemma ShowQuoted(w: Word, rest: string)
    requires w.style != Bare
    ensures Show(w) + rest == [Mark(w.style)] + (w.text + ([Mark(w.style)] + rest))
  {
    Regroup([Mark(w.style)], w.text, [Mark(w.style)], rest);
  }

  lemma QuotedAt(s: string, i: nat, gap: string, mark: char, text: string, rest: string, b: nat, e: nat)
    requires i <= |s| && s[i..] == gap + ([mark] + (text + ([mark] + rest))) && b == i + |gap| + 1 && e == b + |text|
    ensures e < |s| && s[i..b - 1] == gap && s[b - 1] == mark && s[b..e] == text && s[e] == mark && s[e + 1..] == rest
  {
    SuffixAt(s, i, gap, [mark] + (text + ([mark] + rest)));
    CharAt(s, b - 1, mark, text + ([mark] + rest));
    SuffixAt(s, b, text, [mark] + rest);
    CharAt(s, e, mark, rest);
  }

  lemma StoreIs(s: string, b: nat, e: nat, target: Target, t: Tokens, t': Tokens)
    requires b <= e <= |s| && Record(t, target, s[b..e]) == Some(t') && |t'.argv| < MAXARGS - 1
    ensures Store(s, b, e, target, t) == Scan(s, e + 1, ARGUMENT, t')
  {
  }

  // One quoted word, after a gap of white space or none, is recorded as its text.
  lemma ScanQuoted(s: string, i: nat, gap: string, w: Word, rest: string, target: Target, t: Tokens, j: nat, t': Tokens)
    requires i <= |s| && s[i..] == gap + (Show(w) + rest) && gap in {"", " "} && w.style != Bare && Printable(w)
    requires Record(t, target, w.text) == Some(t') && |t'.argv| < MAXARGS - 1 && j == i + |gap| + |w.text| + 2
    ensures j <= |s| && s[j..] == rest
    ensures Leads(s, i, target, t, j, ARGUMENT, t')
  {
    var b, e, mark := i + |gap| + 1, j - 1, Mark(w.style);
    ShowQuoted(w, rest);
    QuotedAt(s, i, gap, mark, w.text, rest, b, e);
    GapBlank(s, i, b - 1, gap);
    TextLacks(s, b, e, w.text, mark);
    ScanQuotedAt(s, i, b, e, mark, target, t);
    StoreIs(s, b, e, target, t, t');
  }

  lemma BareAt(s: string, i: nat, gap: string, text: string, rest: string)
    requires i <= |s| && s[i..] == gap + (text + rest) && gap in {"", " "} && BlankLed(rest) && text != ""
    requires forall c | c in text :: c !in DELIMS
    ensures var b := i + |gap|; var e := b + |text|;
      && e <= |s| && s[e..] == rest && s[b] == text[0] && s[b..e] == text && (e < |s| ==> s[e] == ' ')
      && (forall k {:trigger s[k]} | i <= k < b :: s[k] in DELIMS)
      && (forall k {:trigger s[k]} | b <= k < e :: s[k] !in DELIMS)
  {
    var b := i + |gap|;
    var e := b + |text|;
    SuffixAt(s, i, gap, text + rest);
    SuffixAt(s, b, text, rest);
    forall k {:trigger s[k]} | i <= k < b ensures s[k] in DELIMS {
      assert s[i..b][k - i] == ' ';
    }
    forall k {:trigger s[k]} | b <= k < e ensures s[k] !in DELIMS {
      assert s[b..e][k - b] in text;
    }
    assert s[b] == s[b..e][0];
    assert e < |s| ==> s[e] == s[e..][0];
  }

  // One bare word, likewise. What follows it is set off by a blank.
  lemma ScanBare(s: string, i: nat, gap: string, w: Word, rest: string, target: Target, t: Tokens, j: nat, t': Tokens)
    requires i <= |s| && s[i..] == gap + (Show(w) + rest) && gap in {"", " "} && w.style == Bare && Printable(w)
    requires BlankLed(rest)
    requires Record(t, target, w.text) == Some(t') && |t'.argv| < MAXARGS - 1 && j == i + |gap| + |w.text|
    ensures j <= |s| && s[j..] == rest
    ensures Leads(s, i, target, t, j, ARGUMENT, t')
  {
    BareAt(s, i, gap, w.text, rest);
    ScanBareAt(s, i, i + |gap|, j, target, t);
    SkipBlank(s, j, ARGUMENT, t');
  }

  // One word, however it is written.
  lemma ScanShown(s: string, i: nat, gap: string, w: Word, rest: string, target: Target, t: Tokens, j: nat, t': Tokens)
    requires i <= |s| && s[i..] == gap + (Show(w) + rest) && gap in {"", " "} && Printable(w) && BlankLed(rest)
    requires Record(t, target, w.text) == Some(t') && |t'.argv| < MAXARGS - 1 && j == i + |gap| + |Show(w)|
    ensures j <= |s| && s[j..] == rest
    ensures Leads(s, i, target, t, j, ARGUMENT, t')
  {
    if w.style == Bare {
      ScanBare(s, i, gap, w, rest, target, t, j, t');
    } else {
      ScanQuoted(s, i, gap, w, rest, target, t, j, t');
    }
  }

  // A redirection sign.
  lemma ScanMark(s: string, i: nat, mark: char, rest: string, t: Tokens, j: nat, target: Target)
    requires i <= |s| && s[i..] == [' ', mark] + rest
    requires (mark == '<' && t.infile.None?) || (mark == '>' && t.outfile.None?)
    requires j == i + 2 && target == Target(mark == '<', mark == '>')
    ensures j <= |s| && s[j..] == rest
    ensures Leads(s, i, ARGUMENT, t, j, target, t)
  {
    SuffixAt(s, i, [' ', mark], rest);
    assert s[i..][0] == ' ' && s[i..][1] == mark;
    IndexIs(s, i, DELIMS, false, i + 1);
  }

  lemma ScanArgument(s: string, i: nat, gap: string, w: Word, rest: string, t: Tokens, j: nat, t': Tokens)
    requires i <= |s| && s[i..] == gap + (Show(w) + rest) && gap in {"", " "} && Printable(w) && BlankLed(rest)
    requires |t.argv| < MAXARGS - 2 && t' == t.(argv := t.argv + [w.text]) && j == i + |gap| + |Show(w)|
    ensures j <= |s| && s[j..] == rest && Leads(s, i, ARGUMENT, t, j, ARGUMENT, t')
  {
    ScanShown(s, i, gap, w, rest, ARGUMENT, t, j, t');
  }

  lemma WordsFirst(ws: seq<Word>, rest: string)
    requires ws != [] && BlankLed(rest)
    ensures Words(ws) + rest == " " + (Show(ws[0]) + (Words(ws[1..]) + rest))
    ensures |Words(ws)| == |Show(ws[0])| + 1 + |Words(ws[1..])|
  {
    Regroup(" ", Show(ws[0]), Words(ws[1..]), rest);
  }

  lemma WordsBlankLed(ws: seq<Word>, rest: string)
    requires BlankLed(rest)
    ensures BlankLed(Words(ws) + rest)
  {
  }

  lemma TextsFirst(v: seq<string>, ws: seq<Word>)
    requires ws != []
    ensures v + [ws[0].text] + Texts(ws[1..]) == v + Texts(ws)
  {
  }

  lemma {:induction false} ScanWords(s: string, i: nat, ws: seq<Word>, rest: string, t: Tokens, j: nat, t': Tokens)
    requires i <= |s| && s[i..] == Words(ws) + rest && |t.argv| + |ws| < MAXARGS - 1 && BlankLed(rest)
    requires forall w {:trigger Printable(w)} | w in ws :: Printable(w)
    requires j == i + |Words(ws)| && t' == t.(argv := t.argv + Texts(ws))
    ensures j <= |s| && s[j..] == rest
    ensures Leads(s, i, ARGUMENT, t, j, ARGUMENT, t')
    decreases |ws|
  {
    if ws == [] {
      assert t.argv + Texts(ws) == t.argv;
    } else {
      var t1 := t.(argv := t.argv + [ws[0].text]);
      WordsFirst(ws, rest);
      WordsBlankLed(ws[1..], rest);
      var k := i + |Show(ws[0])| + 1;
      ScanArgument(s, i, " ", ws[0], Words(ws[1..]) + rest, t, k, t1);
      TextsFirst(t.argv, ws);
      ScanWords(s, k, ws[1..], rest, t1, j, t');
      Onward(s, i, ARGUMENT, t, k, ARGUMENT, t1, j, ARGUMENT, t');
    }
  }

  ghost function Filed(t: Tokens, mark: char, file: Option<Word>): Tokens {
    if mark == '<' then t.(infile := FileText(file)) else t.(outfile := FileText(file))
  }

  lemma FileParts(mark: char, w: Word, rest: string)
    ensures File([' ', mark], Some(w)) + rest == [' ', mark] + (" " + (Show(w) + rest))
    ensures |File([' ', mark], Some(w))| == 3 + |Show(w)|
  {
    Regroup([' ', mark], " ", Show(w), rest);
  }

  lemma ScanFile(s: string, i: nat, mark: char, file: Option<Word>, rest: string, t: Tokens, j: nat, t': Tokens)
    requires i <= |s| && s[i..] == File([' ', mark], file) + rest && |t.argv| < MAXARGS - 1 && BlankLed(rest)
    requires file.Some? ==> Printable(file.value)
    requires (mark == '<' && t.infile.None?) || (mark == '>' && t.outfile.None?)
    requires j == i + |File([' ', mark], file)| && t' == Filed(t, mark, file)
    ensures j <= |s| && s[j..] == rest
    ensures Leads(s, i, ARGUMENT, t, j, ARGUMENT, t')
  {
    if file.Some? {
      var target := Target(mark == '<', mark == '>');
      var k, w := i + 2, file.value;
      FileParts(mark, w, rest);
      ScanMark(s, i, mark, " " + (Show(w) + rest), t, k, target);
      ScanShown(s, k, " ", w, rest, target, t, j, t');
      Onward(s, i, ARGUMENT, t, k, target, t, j, ARGUMENT, t');
    } else {
      assert File([' ', mark], file) + rest == rest;
    }
  }

  lemma ScanTail(s: string, i: nat, background: bool, t: Tokens)
    requires i <= |s| && s[i..] == (if background then " &" else "")
    ensures Scan(s, i, ARGUMENT, t) == Scanned(if background then t.(argv := t.argv + ["&"]) else t, ARGUMENT)
  {
    if background {
      assert s[i..][0] == ' ' && s[i..][1] == '&' && |s| == i + 2;
      IndexIs(s, i, DELIMS, false, i + 1);
      assert s[i + 1..i + 2] == "&";
      assert Index(s, i + 1, DELIMS, true) == Index(s, i + 2, DELIMS, true) == i + 2;
      var t' := t.(argv := t.argv + ["&"]);
      assert Record(t, ARGUMENT, "&") == Some(t');
      assert Scan(s, i + 3, ARGUMENT, t') == Scanned(t', ARGUMENT);
      assert Scan(s, i, ARGUMENT, t) == ScanToken(s, i + 1, ARGUMENT, t) == Store(s, i + 1, i + 2, ARGUMENT, t);
    }
  }

  // What follows the words.
  ghost function Tail(outfile: Option<Word>, background: bool): string {
    File(" >", outfile) + if background then " &" else ""
  }

  ghost function Files(infile: Option<Word>, outfile: Option<Word>, background: bool): string {
    File(" <", infile) + Tail(outfile, background)
  }

  lemma RegroupLine(a: string, b: string, c: string, d: string, e: string)
    ensures a + b + c + d + e == "" + (a + (b + (c + (d + e))))
  {
  }

  lemma RenderParts(ws: seq<Word>, infile: Option<Word>, outfile: Option<Word>, background: bool)
    requires ws != []
    ensures Render(ws, infile, outfile, background)
      == "" + (Show(ws[0]) + (Words(ws[1..]) + Files(infile, outfile, background)))
  {
    RegroupLine(Show(ws[0]), Words(ws[1..]), File(" <", infile), File(" >", outfile),
                if background then " &" else "");
  }

  lemma TailBlankLed(infile: Option<Word>, outfile: Option<Word>, background: bool)
    ensures BlankLed(Files(infile, outfile, background)) && BlankLed(Tail(outfile, background))
  {
  }

  // All the words of the rendering.
  lemma ScanAllWords(s: string, ws: seq<Word>, rest: string, j: nat, t: Tokens)
    requires ws != [] && |ws| < MAXARGS - 1 && forall w {:trigger Printable(w)} | w in ws :: Printable(w)
    requires s == "" + (Show(ws[0]) + (Words(ws[1..]) + rest)) && BlankLed(rest)
    requires j == |Show(ws[0])| + |Words(ws[1..])| && t == Tokens(Texts(ws), None, None)
    ensures j <= |s| && s[j..] == rest && Leads(s, 0, ARGUMENT, NOTHING, j, ARGUMENT, t)
  {
    var i, t1 := |Show(ws[0])|, Tokens([ws[0].text], None, None);
    assert s[0..] == s;
    WordsBlankLed(ws[1..], rest);
    ScanArgument(s, 0, "", ws[0], Words(ws[1..]) + rest, NOTHING, i, t1);
    TextsFirst([], ws);
    ScanWords(s, i, ws[1..], rest, t1, j, t);
    Onward(s, 0, ARGUMENT, NOTHING, i, ARGUMENT, t1, j, ARGUMENT, t);
  }

  // The files and the background mark.
  lemma ScanFiles(s: string, i: nat, infile: Option<Word>, outfile: Option<Word>, background: bool, t: Tokens,
                  t': Tokens)
    requires i <= |s| && s[i..] == Files(infile, outfile, background)
    requires |t.argv| < MAXARGS - 1 && t.infile.None? && t.outfile.None?
    requires (infile.Some? ==> Printable(infile.value)) && (outfile.Some? ==> Printable(outfile.value))
    requires t' == Tokens(t.argv, FileText(infile), FileText(outfile))
    ensures Scan(s, i, ARGUMENT, t) == Scanned(if background then t'.(argv := t'.argv + ["&"]) else t', ARGUMENT)
  {
    var t1 := t.(infile := FileText(infile));
    var j := i + |File(" <", infile)|;
    var k := j + |File(" >", outfile)|;
    TailBlankLed(infile, outfile, background);
    ScanFile(s, i, '<', infile, Tail(outfile, background), t, j, t1);
    ScanFile(s, j, '>', outfile, if background then " &" else "", t1, k, t');
    ScanTail(s, k, background, t');
    Onward(s, i, ARGUMENT, t, j, ARGUMENT, t1, k, ARGUMENT, t');
  }

  // What the whole rendering scans to.
  lemma ScanRender(ws: seq<Word>, infile: Option<Word>, outfile: Option<Word>, background: bool, t: Tokens)
    requires ws != [] && |ws| < MAXARGS - 1 && forall w {:trigger Printable(w)} | w in ws :: Printable(w)
    requires (infile.Some? ==> Printable(infile.value)) && (outfile.Some? ==> Printable(outfile.value))
    requires t == Tokens(Texts(ws), FileText(infile), FileText(outfile))
    ensures Scan(Render(ws, infile, outfile, background), 0, ARGUMENT, NOTHING)
      == Scanned(if background then t.(argv := t.argv + ["&"]) else t, ARGUMENT)
  {
    var s := Render(ws, infile, outfile, background);
    var j, t1 := |Show(ws[0])| + |Words(ws[1..])|, Tokens(Texts(ws), None, None);
    RenderParts(ws, infile, outfile, background);
    TailBlankLed(infile, outfile, background);
    ScanAllWords(s, ws, Files(infile, outfile, background), j, t1);
    ScanFiles(s, j, infile, outfile, background, t1, t);
  }

  lemma ParseRender(ws: seq<Word>, infile: Option<Word>, outfile: Option<Word>, background: bool, t: Tokens)
    requires ws != [] && |ws| <= 126 && forall w {:trigger Printable(w)} | w in ws :: Printable(w)
    requires (infile.Some? ==> Printable(infile.value)) && (outfile.Some? ==> Printable(outfile.value))
    requires t == Tokens(Texts(ws), FileText(infile), FileText(outfile))
    ensures Parse(Render(ws, infile, outfile, background))
      == Finish(if background then t.(argv := t.argv + ["&"]) else t)
  {
    ScanRender(ws, infile, outfile, background, t);
  }

  lemma FinishIs(t: Tokens, background: bool)
    requires t.argv != []
    ensures Finish(if background then t.(argv := t.argv + ["&"]) else t) == Command(t, BuiltinOf(t.argv[0]), background)
      <==> background || !Ampersand(t.argv[|t.argv| - 1])
    ensures var r := Finish(if background then t.(argv := t.argv + ["&"]) else t);
      r.Command? && IsBuiltin(t.argv[0], r.builtin)
  {
    BuiltinIs(t.argv[0]);
    assert (t.argv + ["&"])[..|t.argv|] == t.argv;
  }

  /**
   * Round trip: a command line of words in any style, files and a background mark parses back to exactly those. Only
   * when there is no background mark can it fail, and it fails exactly when the last word starts with the mark itself.
   * The command is a builtin exactly when the first word names one.
   */
  lemma RoundTrip(ws: seq<Word>, infile: Option<Word>, outfile: Option<Word>, background: bool)
    requires ws != [] && |ws| <= 126
    requires forall w {:trigger Printable(w)} | w in ws :: Printable(w)
    requires (infile.Some? ==> Printable(infile.value)) && (outfile.Some? ==> Printable(outfile.value))
    ensures Parse(Render(ws, infile, outfile, background))
        == Command(Tokens(Texts(ws), FileText(infile), FileText(outfile)), BuiltinOf(ws[0].text), background)
      <==> background || !Ampersand(ws[|ws| - 1].text)
    ensures var r := Parse(Render(ws, infile, outfile, background)); r.Command? && IsBuiltin(ws[0].text, r.builtin)
  {
    var t := Tokens(Texts(ws), FileText(infile), FileText(outfile));
    ParseRender(ws, infile, outfile, background, t);
    FinishIs(t, background);
    assert t.argv[0] == ws[0].text && t.argv[|t.argv| - 1] == ws[|ws| - 1].text;
  }

  /** The line ls "&x", whose quoted last word is lost and makes the job a background job. */
  lemma LosesQuotedWord() returns (ws: seq<Word>)
    ensures ws == [Word(Bare, "ls"), Word(Double, "&x")] && forall w {:trigger Printable(w)} | w in ws :: Printable(w)
    ensures Parse(Render(ws, None, None, false)) == Command(Tokens(["ls"], None, None), NoBuiltin, true)
  {
    ws := [Word(Bare, "ls"), Word(Double, "&x")];
    var t := Tokens(Texts(ws), None, None);
    assert Texts(ws) == ["ls", "&x"];
    ScanRender(ws, None, None, false, t);
    assert t.argv[..1] == ["ls"];
  }

  // ---- In place ---------------------------------------------------------------

  // Tokens as the code has them: positions in the buffer of strings that end at a NUL.
  datatype Pointers = Pointers(argv: seq<nat>, infile: Option<nat>, outfile: Option<nat>)

  // The NUL-terminated string at q is this text.
  ghost predicate StringAt(b: string, q: nat, text: string) {
    q + |text| < |b| && b[q..q + |text|] == text && b[q + |text|] == '\0' && '\0' !in text
  }

  function TextAt(b: string, q: nat): string
    requires q <= |b|
  {
    b[q..Index(b, q, {NUL}, true)]
  }

  // The string at q is this text and ends before p.
  ghost predicate TokenAt(b: string, q: nat, text: string, p: nat) {
    q + |text| < |b| && q + |text| < p && b[q..q + |text|] == text && b[q + |text|] == NUL && NUL !in text
  }

  ghost predicate FileAt(b: string, q: Option<nat>, file: Option<string>, p: nat) {
    match (q, file)
    case (None, None) => true
    case (Some(q), Some(text)) => TokenAt(b, q, text, p)
    case _ => false
  }

  ghost predicate ArgumentsAt(b: string, qs: seq<nat>, argv: seq<string>, p: nat) {
    |qs| == |argv| && forall k {:trigger qs[k]} | 0 <= k < |qs| :: TokenAt(b, qs[k], argv[k], p)
  }

  // From p on the buffer is still the command line.
  ghost predicate Unread(b: string, s: string, p: nat) {
    && |b| == MAXLINE && |s| < MAXLINE && p <= |s| + 1 && NUL !in s
    && b[|s|] == NUL && forall k {:trigger b[k]} | p <= k < |s| :: b[k] == s[k]
  }

  // The tokens found so far lie before p, and the rest is unread.
  ghost predicate Holds(b: string, s: string, p: nat, tok: Pointers, t: Tokens) {
    && Unread(b, s, p)
    && ArgumentsAt(b, tok.argv, t.argv, p)
    && FileAt(b, tok.infile, t.infile, p) && FileAt(b, tok.outfile, t.outfile, p)
  }

  /** A NUL written at p or later leaves the earlier tokens as they are. */
  lemma WriteKeepsToken(b: string, q: nat, text: string, p: nat, e: nat, p': nat)
    requires TokenAt(b, q, text, p) && p <= e < |b| && p <= p'
    ensures TokenAt(b[e := NUL], q, text, p')
  {
    assert b[e := NUL][q..q + |text|] == b[q..q + |text|];
  }

  lemma WriteKeeps(b: string, s: string, p: nat, tok: Pointers, t: Tokens, e: nat)
    requires Holds(b, s, p, tok, t) && p <= e <= |s|
    ensures Holds(b[e := NUL], s, e + 1, tok, t)
  {
    var b' := b[e := NUL];
    forall k {:trigger tok.argv[k]} | 0 <= k < |tok.argv| ensures TokenAt(b', tok.argv[k], t.argv[k], e + 1) {
      WriteKeepsToken(b, tok.argv[k], t.argv[k], p, e, e + 1);
    }
    if tok.infile.Some? {
      WriteKeepsToken(b, tok.infile.value, t.infile.value, p, e, e + 1);
    }
    if tok.outfile.Some? {
      WriteKeepsToken(b, tok.outfile.value, t.outfile.value, p, e, e + 1);
    }
  }

  // The token between q and e is there once its end is marked.
  lemma Terminated(b: string, s: string, p: nat, q: nat, e: nat)
    requires Unread(b, s, p) && p <= q <= e <= |s|
    ensures TokenAt(b[e := NUL], q, s[q..e], e + 1)
  {
    assert b[e := NUL][q..e] == s[q..e];
  }

  lemma TextIs(b: string, q: nat, text: string, p: nat)
    requires TokenAt(b, q, text, p)
    ensures TextAt(b, q) == text
  {
    forall k {:trigger b[k]} | q <= k < q + |text| ensures b[k] !in {NUL} {
      assert b[q..q + |text|][k - q] in text;
    }
    IndexIs(b, q, {NUL}, true, q + |text|);
  }

  lemma LeadingChar(b: string, q: nat)
    requires q < |b|
    ensures Ampersand(TextAt(b, q)) <==> b[q] == '&'
  {
  }

  lemma HoldsLater(b: string, s: string, p: nat, tok: Pointers, t: Tokens, p': nat)
    requires Holds(b, s, p, tok, t) && p <= p' <= |s| + 1
    ensures Holds(b, s, p', tok, t)
  {
    forall k {:trigger tok.argv[k]} | 0 <= k < |tok.argv| ensures TokenAt(b, tok.argv[k], t.argv[k], p') {
    }
  }

  // strncpy, which fills the rest of the buffer with NULs; returns endbuf.
  method CopyLine(buf: array<char>, s: string) returns (end: nat)
    requires buf.Length == MAXLINE && |s| < MAXLINE && NUL !in s
    modifies buf
    ensures end == |s| && Unread(buf[..], s, 0)
  {
    for k := 0 to MAXLINE
      invariant forall i {:trigger buf[i]} | 0 <= i < k :: buf[i] == if i < |s| then s[i] else NUL
    {
      buf[k] := if k < |s| then s[k] else NUL;
    }
    end := |s|;
  }

  // strspn, strcspn and strchr: the first position from p on whose character is (or is not) one of these, or the end.
  method Find(buf: array<char>, p: nat, chars: set<char>, member: bool, ghost s: string) returns (q: nat)
    requires Unread(buf[..], s, p) && p <= |s| && buf.Length == MAXLINE
    ensures q == Index(s, p, chars, member)
    ensures q < |s| ==> buf[q] == s[q] && ((s[q] in chars) <==> member)
    ensures q == |s| ==> buf[q] == NUL
  {
    q := p;
    while buf[q] != NUL && !((buf[q] in chars) <==> member)
      invariant p <= q <= |s| && Index(s, p, chars, member) == Index(s, q, chars, member)
      decreases |s| - q
    {
      assert buf[..][q] == s[q];
      q := q + 1;
    }
    assert buf[..][q] == if q < |s| then s[q] else NUL;
    assert q < |s| ==> s[q] in s;
  }

  datatype Status = Go | Stop | Bad

  // What a step says about the scan it is part of.
  ghost predicate Outcome(r: Scanned, st: Status, s: string, p: nat, target: Target, t: Tokens) {
    match st
    case Bad => r == Malformed
    case Stop => r == Scanned(t, target)
    case Go => r == Scan(s, p, target, t)
  }

  // Records the token between q and e, whose end is marked.
  method RecordToken(q: nat, target: Target, tok: Pointers, ghost text: string, ghost t: Tokens)
    returns (ok: bool, tok': Pointers, ghost t': Tokens)
    ensures ok <==> Record(t, target, text).Some?
    ensures ok ==> Record(t, target, text) == Some(t')
    ensures if ok && target == ARGUMENT then tok' == tok.(argv := tok.argv + [q])
      else if ok && target.input then tok' == tok.(infile := Some(q))
      else if ok then tok' == tok.(outfile := Some(q)) else true
  {
    ok := true;
    if target == ARGUMENT {
      tok', t' := tok.(argv := tok.argv + [q]), t.(argv := t.argv + [text]);
    } else if target == Target(true, false) {
      tok', t' := tok.(infile := Some(q)), t.(infile := Some(text));
    } else if target == Target(false, true) {
      tok', t' := tok.(outfile := Some(q)), t.(outfile := Some(text));
    } else {
      ok, tok', t' := false, tok, t;
    }
  }

  // Marks the end of the token between q and e, and records it.
  method EndToken(buf: array<char>, q: nat, e: nat, target: Target, tok: Pointers,
                  ghost s: string, ghost p: nat, ghost t: Tokens)
    returns (st: Status, tok': Pointers, ghost t': Tokens)
    requires buf.Length == MAXLINE && Holds(buf[..], s, p, tok, t) && p <= q <= e <= |s|
    modifies buf
    ensures Outcome(Store(s, q, e, target, t), st, s, e + 1, ARGUMENT, t')
    ensures st != Bad ==> Holds(buf[..], s, e + 1, tok', t')
  {
    ghost var b := buf[..];
    buf[e] := NUL;
    assert buf[..] == b[e := NUL];
    WriteKeeps(b, s, p, tok, t, e);
    Terminated(b, s, p, q, e);
    var ok;
    ok, tok', t' := RecordToken(q, target, tok, s[q..e], t);
    st := if !ok then Bad else if |tok'.argv| >= MAXARGS - 1 then Stop else Go;
  }

  method ReadQuoted(buf: array<char>, q: nat, c: char, target: Target, tok: Pointers, ghost s: string, ghost t: Tokens)
    returns (st: Status, p': nat, tok': Pointers, ghost t': Tokens)
    requires buf.Length == MAXLINE && Holds(buf[..], s, q, tok, t) && q <= |s|
    modifies buf
    ensures var e := Index(s, q, {c}, true);
      p' == e + 1 && Outcome(if e == |s| then Malformed else Store(s, q, e, target, t), st, s, e + 1, ARGUMENT, t')
    ensures st != Bad ==> Holds(buf[..], s, p', tok', t')
  {
    var next := Find(buf, q, {c}, true, s);
    assert next < |s| ==> s[next] in s;
    p' := next + 1;
    if buf[next] == NUL {
      return Bad, p', tok, t;
    }
    st, tok', t' := EndToken(buf, q, next, target, tok, s, q, t);
  }

  method ReadWord(buf: array<char>, p: nat, target: Target, tok: Pointers, ghost s: string, ghost t: Tokens)
    returns (st: Status, p': nat, tok': Pointers, ghost t': Tokens)
    requires buf.Length == MAXLINE && Holds(buf[..], s, p, tok, t) && p < |s|
    modifies buf
    ensures var e := Index(s, p, DELIMS, true);
      p' == e + 1 && Outcome(Store(s, p, e, target, t), st, s, e + 1, ARGUMENT, t')
    ensures st != Bad ==> Holds(buf[..], s, p', tok', t')
  {
    var next := Find(buf, p, DELIMS, true, s);
    st, tok', t' := EndToken(buf, p, next, target, tok, s, p, t);
    p' := next + 1;
  }

  // Reads one token.
  method ReadText(buf: array<char>, p: nat, target: Target, tok: Pointers, ghost s: string, ghost t: Tokens)
    returns (st: Status, p': nat, tok': Pointers, ghost t': Tokens)
    requires buf.Length == MAXLINE && Holds(buf[..], s, p, tok, t) && p < |s| && s[p] == buf[p] && s[p] !in {'<', '>'}
    modifies buf
    ensures Outcome(ScanToken(s, p, target, t), st, s, p', ARGUMENT, t') && p' > p
    ensures st != Bad ==> Holds(buf[..], s, p', tok', t')
  {
    if buf[p] == '\'' || buf[p] == '\"' {
      HoldsLater(buf[..], s, p, tok, t, p + 1);
      st, p', tok', t' := ReadQuoted(buf, p + 1, buf[p], target, tok, s, t);
    } else {
      st, p', tok', t' := ReadWord(buf, p, target, tok, s, t);
    }
  }

  // Reads one token or redirection sign.
  method ReadToken(buf: array<char>, p: nat, target: Target, tok: Pointers, ghost s: string, ghost t: Tokens)
    returns (st: Status, p': nat, target': Target, tok': Pointers, ghost t': Tokens)
    requires buf.Length == MAXLINE && Holds(buf[..], s, p, tok, t) && p < |s|
    modifies buf
    ensures Outcome(ScanToken(s, p, target, t), st, s, p', target', t') && p' > p
    ensures st != Bad ==> Holds(buf[..], s, p', tok', t')
  {
    assert buf[..][p] == s[p];
    if buf[p] == '<' {
      HoldsLater(buf[..], s, p, tok, t, p + 1);
      return if tok.infile.Some? then Bad else Go, p + 1, target.(input := true), tok, t;
    }
    if buf[p] == '>' {
      HoldsLater(buf[..], s, p, tok, t, p + 1);
      return if tok.outfile.Some? then Bad else Go, p + 1, target.(output := true), tok, t;
    }
    target' := ARGUMENT;
    st, p', tok', t' := ReadText(buf, p, target, tok, s, t);
  }

  // Whether the tokens are those of the parser.
  ghost predicate Agrees(b: string, tok: Pointers, t: Tokens) {
    && |tok.argv| == |t.argv|
    && (forall k {:trigger tok.argv[k]} | 0 <= k < |tok.argv| ::
          StringAt(b, tok.argv[k], t.argv[k]))
    && (tok.infile.Some? <==> t.infile.Some?) && (tok.outfile.Some? <==> t.outfile.Some?)
    && (tok.infile.Some? ==> StringAt(b, tok.infile.value, t.infile.value))
    && (tok.outfile.Some? ==> StringAt(b, tok.outfile.value, t.outfile.value))
  }

  lemma HoldsAgrees(b: string, s: string, p: nat, tok: Pointers, t: Tokens)
    requires Holds(b, s, p, tok, t)
    ensures Agrees(b, tok, t)
  {
  }

  lemma StringIsText(b: string, q: nat, text: string)
    requires StringAt(b, q, text)
    ensures TextAt(b, q) == text
  {
    TextIs(b, q, text, q + |text| + 1);
  }

  // The string at q names this builtin.
  ghost predicate BuiltinAt(b: string, q: nat, builtin: Builtin) {
    && (builtin == Quit <==> StringAt(b, q, "quit")) && (builtin == Jobs <==> StringAt(b, q, "jobs"))
    && (builtin == Bg <==> StringAt(b, q, "bg")) && (builtin == Fg <==> StringAt(b, q, "fg"))
  }

  lemma NamedAt(b: string, q: nat, text: string, name: string)
    requires StringAt(b, q, text) && '\0' !in name
    ensures StringAt(b, q, name) <==> text == name
  {
    if StringAt(b, q, name) {
      StringIsText(b, q, text);
      StringIsText(b, q, name);
    }
  }

  lemma BuiltinIsAt(b: string, q: nat, text: string)
    requires StringAt(b, q, text)
    ensures BuiltinAt(b, q, BuiltinOf(text))
  {
    BuiltinIs(text);
    NamedAt(b, q, text, "quit");
    NamedAt(b, q, text, "jobs");
    NamedAt(b, q, text, "bg");
    NamedAt(b, q, text, "fg");
  }

  // The loop over the command line.
  method Tokenize(buf: array<char>, end: nat, ghost s: string)
    returns (ok: bool, tok: Pointers, target: Target, ghost t: Tokens)
    requires buf.Length == MAXLINE && Unread(buf[..], s, 0) && end == |s|
    modifies buf
    ensures ok <==> Scan(s, 0, ARGUMENT, NOTHING) != Malformed
    ensures ok ==> Scan(s, 0, ARGUMENT, NOTHING) == Scanned(t, target) && Agrees(buf[..], tok, t)
  {
    var p: nat := 0;
    tok, target, t := Pointers([], None, None), ARGUMENT, NOTHING;
    while p < end
      invariant Holds(buf[..], s, p, tok, t)
      invariant Leads(s, 0, ARGUMENT, NOTHING, p, target, t)
      decreases end - p
    {
      var b := Find(buf, p, DELIMS, false, s);
      assert Scan(s, p, target, t) == ScanToken(s, b, target, t);
      if b >= end {
        assert Scan(s, 0, ARGUMENT, NOTHING) == Scanned(t, target);
        break;
      }
      var st: Status;
      HoldsLater(buf[..], s, p, tok, t, b);
      st, p, target, tok, t := ReadToken(buf, b, target, tok, s, t);
      if st == Bad {
        return false, tok, target, t;
      } else if st == Stop {
        assert Scan(s, 0, ARGUMENT, NOTHING) == Scanned(t, target);
        break;
      }
    }
    assert Scan(s, 0, ARGUMENT, NOTHING) == Scanned(t, target);
    HoldsAgrees(buf[..], s, p, tok, t);
    ok := true;
  }

  /** parseline returns what the parser says, with every token still whole in the buffer. */
  method Parseline(cmdline: string, buf: array<char>) returns (r: int, tok: Pointers, builtin: Builtin)
    requires buf.Length == 1024 && |cmdline| < 1024 && '\0' !in cmdline
    modifies buf
    ensures match Parse(cmdline)
      case Error => r == -1
      case Blank => r == 1 && tok.argv == []
      case Command(t, b, background) =>
        && r == (if background then 1 else 0) && builtin == b && Agrees(buf[..], tok, t)
        && if tok.argv == [] then builtin == NoBuiltin else BuiltinAt(buf[..], tok.argv[0], builtin)
  {
    builtin := NoBuiltin;
    var end := CopyLine(buf, cmdline);
    var ok, target;
    ghost var t;
    ok, tok, target, t := Tokenize(buf, end, cmdline);
    if !ok || target != ARGUMENT {
      return -1, tok, builtin;
    }
    if |tok.argv| == 0 {
      return 1, tok, builtin;
    }
    StringIsText(buf[..], tok.argv[0], t.argv[0]);
    BuiltinIsAt(buf[..], tok.argv[0], t.argv[0]);
    builtin := BuiltinOf(TextAt(buf[..], tok.argv[0]));
    var last := |tok.argv| - 1;
    r := 0;
    StringIsText(buf[..], tok.argv[last], t.argv[last]);
    LeadingChar(buf[..], tok.argv[last]);
    if buf[tok.argv[last]] == '&' {
      r := 1;
      tok := tok.(argv := tok.argv[..last]);
    }
  }
}
