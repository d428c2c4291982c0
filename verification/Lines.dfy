/** Any command line, as words and redirection signs with white space around them, and when it is an error. */
module Lines {
  import opened Parseline

  // '<' or '>', or a word in any style.
  datatype Item = Sign(c: char) | Text(w: Word)

  datatype Piece = Piece(gap: string, item: Item)

  // How a line ends: in white space, or in a quote that is not closed.
  datatype End = Closed(gap: string) | Open(gap: string, mark: char, text: string)

  predicate IsBlank(gap: string) {
    forall c | c in gap :: c in {' ', '\t', '\r', '\n'}
  }

  function ShowItem(item: Item): string {
    match item
    case Sign(c) => [c]
    case Text(w) => Show(w)
  }

  function ShowEnd(end: End): string {
    match end
    case Closed(gap) => gap
    case Open(gap, mark, text) => gap + ([mark] + text)
  }

  function Draw(ps: seq<Piece>, end: End): string {
    if ps == [] then ShowEnd(end) else ps[0].gap + (ShowItem(ps[0].item) + Draw(ps[1..], end))
  }

  ghost predicate ItemOk(item: Item) {
    match item
    case Sign(c) => c == '<' || c == '>'
    case Text(w) => Printable(w)
  }

  // White space follows, or nothing.
  predicate SetOff(rest: string) {
    rest == "" || rest[0] in {' ', '\t', '\r', '\n'}
  }

  // The pieces are what they seem: gaps are white space, and a bare word is set off from what follows it.
  ghost predicate Spaced(ps: seq<Piece>, end: End) {
    && (forall k {:trigger ps[k]} | 0 <= k < |ps| :: PieceOk(ps, end, k))
    && IsBlank(end.gap)
    && (end.Open? ==> end.mark in {'\'', '\"'} && end.mark !in end.text)
  }

  ghost predicate PieceOk(ps: seq<Piece>, end: End, k: nat)
    requires k < |ps|
  {
    && IsBlank(ps[k].gap) && ItemOk(ps[k].item)
    && (ps[k].item.Text? && ps[k].item.w.style == Bare ==> SetOff(Draw(ps[k + 1..], end)))
  }

  // What the line says, item by item. The argument list is full at 127.
  function Sense(ps: seq<Piece>, end: End, target: Target, t: Tokens): Scanned {
    if ps == [] then if end.Open? then Malformed else Scanned(t, target)
    else
      match ps[0].item
      case Sign(c) =>
        if (if c == '<' then t.infile else t.outfile).Some? then Malformed
        else Sense(ps[1..], end, Target(target.input || c == '<', target.output || c != '<'), t)
      case Text(w) =>
        if target.input && target.output then Malformed
        else if target.input then Sense(ps[1..], end, ARGUMENT, t.(infile := Some(w.text)))
        else if target.output then Sense(ps[1..], end, ARGUMENT, t.(outfile := Some(w.text)))
        else if |t.argv| >= 126 then Scanned(t.(argv := t.argv + [w.text]), ARGUMENT)
        else Sense(ps[1..], end, ARGUMENT, t.(argv := t.argv + [w.text]))
  }

  // ---- The scanner reads any such line -------------------------------------------

  lemma GapAt(s: string, i: nat, gap: string, rest: string, target: Target, t: Tokens)
    requires i <= |s| && s[i..] == gap + rest && IsBlank(gap) && rest != "" && rest[0] !in DELIMS
    ensures i + |gap| < |s| && s[i + |gap|..] == rest && s[i + |gap|] == rest[0]
    ensures forall k {:trigger s[k]} | i <= k < i + |gap| :: s[k] in DELIMS
    ensures Scan(s, i, target, t) == ScanToken(s, i + |gap|, target, t)
  {
    SuffixAt(s, i, gap, rest);
    var b := i + |gap|;
    assert s[b..][0] == rest[0];
    GapBlank(s, i, b, gap);
    IndexIs(s, i, DELIMS, false, b);
  }

  lemma ClosedAt(s: string, i: nat, gap: string, target: Target, t: Tokens)
    requires i <= |s| && s[i..] == gap && IsBlank(gap)
    ensures Scan(s, i, target, t) == Scanned(t, target)
  {
    assert s[i..|s|] == s[i..];
    GapBlank(s, i, |s|, gap);
    IndexNone(s, i, DELIMS, false);
  }

  lemma OpenAt(s: string, i: nat, gap: string, mark: char, text: string, target: Target, t: Tokens)
    requires i <= |s| && s[i..] == gap + ([mark] + text) && IsBlank(gap)
    requires mark in {'\'', '\"'} && mark !in text
    ensures Scan(s, i, target, t) == Malformed
  {
    var b := i + |gap|;
    GapAt(s, i, gap, [mark] + text, target, t);
    CharAt(s, b, mark, text);
    Unmatched(s, b, mark, text, target, t);
  }

  lemma Unmatched(s: string, b: nat, mark: char, text: string, target: Target, t: Tokens)
    requires b < |s| && s[b] == mark && s[b + 1..] == text && mark in {'\'', '\"'} && mark !in text
    ensures ScanToken(s, b, target, t) == Malformed
  {
    assert s[b + 1..|s|] == s[b + 1..];
    TextLacks(s, b + 1, |s|, text, mark);
    IndexNone(s, b + 1, {mark}, true);
  }

  lemma SignAt(s: string, i: nat, gap: string, c: char, rest: string, target: Target, t: Tokens)
    requires i <= |s| && s[i..] == gap + ([c] + rest) && IsBlank(gap) && c in {'<', '>'}
    ensures i + |gap| + 1 <= |s| && s[i + |gap| + 1..] == rest
    ensures Scan(s, i, target, t) ==
      if (if c == '<' then t.infile else t.outfile).Some? then Malformed
      else Scan(s, i + |gap| + 1, Target(target.input || c == '<', target.output || c != '<'), t)
  {
    GapAt(s, i, gap, [c] + rest, target, t);
    CharAt(s, i + |gap|, c, rest);
  }

  lemma BareWordAt(s: string, i: nat, gap: string, w: Word, rest: string, target: Target, t: Tokens, b: nat, e: nat)
    requires i <= |s| && s[i..] == gap + (w.text + rest) && IsBlank(gap) && w.style == Bare && Printable(w)
    requires SetOff(rest) && b == i + |gap| && e == b + |w.text|
    ensures e <= |s| && s[e..] == rest && (e < |s| ==> s[e] in DELIMS) && s[b..e] == w.text
    ensures Scan(s, i, target, t) == Store(s, b, e, target, t)
  {
    assert w.text[0] in w.text && (w.text + rest)[0] == w.text[0];
    GapAt(s, i, gap, w.text + rest, target, t);
    SuffixAt(s, b, w.text, rest);
    forall k {:trigger s[k]} | b <= k < e ensures s[k] !in DELIMS {
      assert s[b..e][k - b] in w.text;
    }
    assert e < |s| ==> s[e] == s[e..][0];
    ScanBareAt(s, i, b, e, target, t);
  }

  lemma QuotedWordAt(s: string, i: nat, gap: string, w: Word, rest: string, target: Target, t: Tokens, b: nat, e: nat)
    requires i <= |s| && s[i..] == gap + (Show(w) + rest) && IsBlank(gap) && w.style != Bare && Printable(w)
    requires b == i + |gap| + 1 && e == b + |w.text|
    ensures e < |s| && s[e + 1..] == rest && s[b..e] == w.text
    ensures Scan(s, i, target, t) == Store(s, b, e, target, t)
  {
    var mark := Mark(w.style);
    ShowQuoted(w, rest);
    QuotedAt(s, i, gap, mark, w.text, rest, b, e);
    assert ([mark] + (w.text + ([mark] + rest)))[0] == mark;
    GapAt(s, i, gap, [mark] + (w.text + ([mark] + rest)), target, t);
    TextLacks(s, b, e, w.text, mark);
    ScanQuotedAt(s, i, b, e, mark, target, t);
  }

  // A word is stored, and reading goes on behind it.
  lemma WordAt(s: string, i: nat, gap: string, w: Word, rest: string, target: Target, t: Tokens) returns (j: nat)
    requires i <= |s| && s[i..] == gap + (Show(w) + rest) && IsBlank(gap) && Printable(w)
    requires w.style == Bare ==> SetOff(rest)
    ensures j <= |s| && s[j..] == rest
    ensures Scan(s, i, target, t) ==
      match Record(t, target, w.text)
      case None => Malformed
      case Some(t') => if |t'.argv| >= 127 then Scanned(t', ARGUMENT) else Scan(s, j, ARGUMENT, t')
  {
    var r := Record(t, target, w.text);
    if w.style == Bare {
      var b := i + |gap|;
      j := b + |w.text|;
      BareWordAt(s, i, gap, w, rest, target, t, b, j);
      if r.Some? {
        SkipBlank(s, j, ARGUMENT, r.value);
      }
    } else {
      var b := i + |gap| + 1;
      QuotedWordAt(s, i, gap, w, rest, target, t, b, b + |w.text|);
      j := b + |w.text| + 1;
    }
  }

  lemma PieceRest(ps: seq<Piece>, end: End, k: nat)
    requires k + 1 < |ps| && PieceOk(ps, end, k + 1)
    ensures PieceOk(ps[1..], end, k)
  {
    assert ps[1..][k + 1..] == ps[k + 1 + 1..];
  }

  lemma SpacedRest(ps: seq<Piece>, end: End)
    requires Spaced(ps, end) && ps != []
    ensures Spaced(ps[1..], end) && PieceOk(ps, end, 0)
  {
    forall k: nat | k < |ps[1..]| ensures PieceOk(ps[1..], end, k) {
      PieceRest(ps, end, k);
    }
  }

  /** Scanning the rest of a line is making sense of its items. */
  ghost predicate Reads(s: string, i: nat, ps: seq<Piece>, end: End, target: Target, t: Tokens) {
    Scan(s, i, target, t) == Sense(ps, end, target, t)
  }

  lemma ReadsEnd(s: string, i: nat, end: End, target: Target, t: Tokens)
    requires i <= |s| && s[i..] == ShowEnd(end) && Spaced([], end)
    ensures Reads(s, i, [], end, target, t)
  {
    match end
    case Closed(gap) => ClosedAt(s, i, gap, target, t);
    case Open(gap, mark, text) => OpenAt(s, i, gap, mark, text, target, t);
  }

  lemma ReadsSign(s: string, i: nat, j: nat, c: char, ps: seq<Piece>, end: End, target: Target, t: Tokens)
    requires ps != [] && ps[0].item == Sign(c)
    requires var target' := Target(target.input || c == '<', target.output || c != '<');
      && Scan(s, i, target, t) ==
        (if (if c == '<' then t.infile else t.outfile).Some? then Malformed else Scan(s, j, target', t))
      && Reads(s, j, ps[1..], end, target', t)
    ensures Reads(s, i, ps, end, target, t)
  {
  }

  lemma ReadsWord(s: string, i: nat, j: nat, w: Word, ps: seq<Piece>, end: End, target: Target, t: Tokens)
    requires ps != [] && ps[0].item == Text(w) && |t.argv| <= 126
    requires match Record(t, target, w.text)
      case None => Scan(s, i, target, t) == Malformed
      case Some(t') =>
        && Scan(s, i, target, t) == (if |t'.argv| >= 127 then Scanned(t', ARGUMENT) else Scan(s, j, ARGUMENT, t'))
        && (|t'.argv| < 127 ==> Reads(s, j, ps[1..], end, ARGUMENT, t'))
    ensures Reads(s, i, ps, end, target, t)
  {
  }

  lemma DrawSign(s: string, i: nat, c: char, ps: seq<Piece>, end: End, target: Target, t: Tokens)
      returns (j: nat, target': Target)
    requires ps != [] && ps[0].item == Sign(c) && PieceOk(ps, end, 0) && i <= |s| && s[i..] == Draw(ps, end)
    ensures j <= |s| && s[j..] == Draw(ps[1..], end)
    ensures target' == Target(target.input || c == '<', target.output || c != '<')
    ensures Scan(s, i, target, t) ==
      if (if c == '<' then t.infile else t.outfile).Some? then Malformed else Scan(s, j, target', t)
  {
    j, target' := i + |ps[0].gap| + 1, Target(target.input || c == '<', target.output || c != '<');
    SignAt(s, i, ps[0].gap, c, Draw(ps[1..], end), target, t);
  }

  lemma DrawWord(s: string, i: nat, w: Word, ps: seq<Piece>, end: End, target: Target, t: Tokens) returns (j: nat)
    requires ps != [] && ps[0].item == Text(w) && PieceOk(ps, end, 0) && i <= |s| && s[i..] == Draw(ps, end)
    ensures j <= |s| && s[j..] == Draw(ps[1..], end)
    ensures Scan(s, i, target, t) ==
      match Record(t, target, w.text)
      case None => Malformed
      case Some(t') => if |t'.argv| >= 127 then Scanned(t', ARGUMENT) else Scan(s, j, ARGUMENT, t')
  {
    assert ps[0 + 1..] == ps[1..];
    j := WordAt(s, i, ps[0].gap, w, Draw(ps[1..], end), target, t);
  }

  /** The scanner makes sense of every line, whatever white space is between its items. */
  lemma {:induction false} ScanDraw(s: string, i: nat, ps: seq<Piece>, end: End, target: Target, t: Tokens)
    requires i <= |s| && s[i..] == Draw(ps, end) && Spaced(ps, end) && |t.argv| <= 126
    ensures Reads(s, i, ps, end, target, t)
    decreases |ps|
  {
    if ps == [] {
      ReadsEnd(s, i, end, target, t);
    } else {
      SpacedRest(ps, end);
      match ps[0].item {
        case Sign(c) =>
          var j, target' := DrawSign(s, i, c, ps, end, target, t);
          ScanDraw(s, j, ps[1..], end, target', t);
          ReadsSign(s, i, j, c, ps, end, target, t);
        case Text(w) =>
          var j := DrawWord(s, i, w, ps, end, target, t);
          var r := Record(t, target, w.text);
          if r.Some? && |r.value.argv| < 127 {
            ScanDraw(s, j, ps[1..], end, ARGUMENT, r.value);
          }
          ReadsWord(s, i, j, w, ps, end, target, t);
      }
    }
  }

  // ---- When a line is an error ---------------------------------------------------

  // Only signs stand between item k and an earlier c.
  ghost predicate Pending(ps: seq<Piece>, k: nat, c: char)
    requires k <= |ps|
  {
    exists j {:trigger ps[j]} :: 0 <= j < k && ps[j].item == Sign(c)
      && forall m {:trigger ps[m]} | j <= m < k :: ps[m].item.Sign?
  }

  // A file for c was named before item k.
  ghost predicate Given(ps: seq<Piece>, k: nat, c: char)
    requires k <= |ps|
  {
    exists j: nat {:trigger Pending(ps, j, c)} :: j < k && ps[j].item.Text? && Pending(ps, j, c)
  }

  // A sign for a file that was named before, or a word behind signs of both kinds.
  ghost predicate Wrong(ps: seq<Piece>, k: nat)
    requires k < |ps|
  {
    match ps[k].item
    case Sign(c) => Given(ps, k, c)
    case Text(_) => Pending(ps, k, '<') && Pending(ps, k, '>')
  }

  // What the scanner knows before item k.
  ghost predicate Knows(ps: seq<Piece>, k: nat, target: Target, t: Tokens)
    requires k <= |ps|
  {
    && target.input == Pending(ps, k, '<') && target.output == Pending(ps, k, '>')
    && t.infile.Some? == Given(ps, k, '<') && t.outfile.Some? == Given(ps, k, '>')
  }

  lemma PendingNext(ps: seq<Piece>, k: nat, c: char)
    requires k < |ps|
    ensures Pending(ps, k + 1, c) <==> ps[k].item.Sign? && (ps[k].item == Sign(c) || Pending(ps, k, c))
    ensures Given(ps, k + 1, c) <==> Given(ps, k, c) || (ps[k].item.Text? && Pending(ps, k, c))
  {
    if Pending(ps, k, c) && ps[k].item.Sign? {
      var j :| 0 <= j < k && ps[j].item == Sign(c) && forall m {:trigger ps[m]} | j <= m < k :: ps[m].item.Sign?;
      assert forall m {:trigger ps[m]} | j <= m < k + 1 :: ps[m].item.Sign?;
    }
  }

  ghost predicate FirstWrongFrom(ps: seq<Piece>, k: nat) {
    exists m: nat {:trigger Wrong(ps, m)} :: k <= m < |ps| && Wrong(ps, m)
  }

  function WordCount(ps: seq<Piece>): nat {
    if ps == [] then 0 else (if ps[0].item.Text? then 1 else 0) + WordCount(ps[1..])
  }

  predicate Fails(r: Scanned) {
    r.Malformed? || r.target != ARGUMENT
  }

  lemma WrongFirst(ps: seq<Piece>, k: nat)
    requires k < |ps|
    ensures FirstWrongFrom(ps, k) <==> Wrong(ps, k) || FirstWrongFrom(ps, k + 1)
  {
  }

  ghost predicate Unfinished(ps: seq<Piece>, end: End) {
    end.Open? || Pending(ps, |ps|, '<') || Pending(ps, |ps|, '>')
  }

  lemma SenseWrong(ps: seq<Piece>, end: End, k: nat, target: Target, t: Tokens)
    requires k < |ps| && Knows(ps, k, target, t) && ItemOk(ps[k].item) && Wrong(ps, k)
    ensures Sense(ps[k..], end, target, t) == Malformed
  {
    assert ps[k..][0] == ps[k];
  }

  // A sign or a word that is not wrong is dealt with, and the scanner knows what comes next.
  lemma SenseOn(ps: seq<Piece>, end: End, k: nat, target: Target, t: Tokens) returns (target': Target, t': Tokens)
    requires k < |ps| && Knows(ps, k, target, t) && ItemOk(ps[k].item) && !Wrong(ps, k)
    requires |t.argv| + WordCount(ps[k..]) <= 126
    ensures Knows(ps, k + 1, target', t') && |t'.argv| + WordCount(ps[k + 1..]) <= 126
    ensures Sense(ps[k..], end, target, t) == Sense(ps[k + 1..], end, target', t')
  {
    assert ps[k..][0] == ps[k] && ps[k..][1..] == ps[k + 1..];
    PendingNext(ps, k, '<');
    PendingNext(ps, k, '>');
    match ps[k].item {
      case Sign(c) =>
        target', t' := Target(target.input || c == '<', target.output || c != '<'), t;
      case Text(w) =>
        target' := ARGUMENT;
        t' := if target.input then t.(infile := Some(w.text))
              else if target.output then t.(outfile := Some(w.text))
              else t.(argv := t.argv + [w.text]);
    }
  }

  lemma {:induction false} SenseFails(ps: seq<Piece>, end: End, k: nat, target: Target, t: Tokens)
    requires k <= |ps| && Knows(ps, k, target, t) && |t.argv| + WordCount(ps[k..]) <= 126
    requires forall m {:trigger ps[m]} | 0 <= m < |ps| :: ItemOk(ps[m].item)
    ensures Fails(Sense(ps[k..], end, target, t)) <==> FirstWrongFrom(ps, k) || Unfinished(ps, end)
    decreases |ps| - k
  {
    if k < |ps| {
      WrongFirst(ps, k);
      if Wrong(ps, k) {
        SenseWrong(ps, end, k, target, t);
      } else {
        var target', t' := SenseOn(ps, end, k, target, t);
        SenseFails(ps, end, k + 1, target', t');
      }
    }
  }

  /**
   * A line of at most 126 words is an error exactly when a quote is left open, a redirection has no file name, a second
   * file is named for the same direction, or a word stands behind signs of both directions.
   */
  lemma ErrorExactly(ps: seq<Piece>, end: End)
    requires Spaced(ps, end) && WordCount(ps) <= 126
    ensures Parse(Draw(ps, end)) == Error
      <==> FirstWrongFrom(ps, 0) || Unfinished(ps, end)
    ensures ps == [] && end.Closed? ==> Parse(Draw(ps, end)) == Blank
  {
    var s := Draw(ps, end);
    assert s[0..] == s && ps[0..] == ps;
    forall m {:trigger ps[m]} | 0 <= m < |ps| ensures ItemOk(ps[m].item) {
      assert PieceOk(ps, end, m);
    }
    ScanDraw(s, 0, ps, end, ARGUMENT, NOTHING);
    SenseFails(ps, end, 0, ARGUMENT, NOTHING);
  }

  // ---- When the argument list is full --------------------------------------------

  lemma {:induction false} SenseFull(ps: seq<Piece>, end: End, k: nat, t: Tokens) returns (argv: seq<string>)
    requires k <= 126 && |t.argv| == k && |ps| >= 127 - k
    requires forall m {:trigger ps[m]} | 0 <= m < 127 - k :: ps[m].item.Text?
    ensures |argv| == 127 && Sense(ps, end, ARGUMENT, t) == Scanned(t.(argv := argv), ARGUMENT)
    ensures argv[..k] == t.argv
    ensures forall m {:trigger ps[m]} | 0 <= m < 127 - k :: argv[k + m] == ps[m].item.w.text
    decreases 126 - k
  {
    var w := ps[0].item.w;
    if k == 126 {
      argv := t.argv + [w.text];
    } else {
      var rest := ps[1..];
      assert forall m {:trigger rest[m]} | 0 <= m < 126 - k :: rest[m] == ps[m + 1];
      argv := SenseFull(rest, end, k + 1, t.(argv := t.argv + [w.text]));
      assert argv[..k] == argv[..k + 1][..k] && argv[k] == argv[..k + 1][k];
      forall m {:trigger ps[m]} | 0 <= m < 127 - k ensures argv[k + m] == ps[m].item.w.text {
        if m > 0 {
          assert rest[m - 1] == ps[m];
        }
      }
    }
  }

  /** A line that starts with 127 words is read no further: the rest, quotes and signs included, is not looked at. */
  lemma StopsWhenFull(ps: seq<Piece>, end: End) returns (argv: seq<string>)
    requires Spaced(ps, end) && |ps| >= 127 && forall m {:trigger ps[m]} | 0 <= m < 127 :: ps[m].item.Text?
    ensures |argv| == 127 && forall m {:trigger ps[m]} | 0 <= m < 127 :: argv[m] == ps[m].item.w.text
    ensures Parse(Draw(ps, end)) == Finish(Tokens(argv, None, None))
  {
    var s := Draw(ps, end);
    assert s[0..] == s;
    ScanDraw(s, 0, ps, end, ARGUMENT, NOTHING);
    argv := SenseFull(ps, end, 0, NOTHING);
  }
}
