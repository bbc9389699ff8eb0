/** The word grammar of a configuration line and the option flags of a storage
    (src/mtp_cfg.c). A line is a character string with a NUL somewhere in it. */
module MtpCfg {
  import opened Options

  const MAX_CFG_STRING_SIZE := 512

  predicate IsEndLine(c: char) {
    c == '\0' || c == '#' || c == '\r' || c == '\n'
  }

  predicate IsSpace(c: char) {
    c == ' ' || c == '\t'
  }

  /** How many blanks lead s; a tab is not one of them. */
  function Blanks(s: string): (n: nat)
    ensures n <= |s|
  {
    if s == [] || s[0] != ' ' then 0 else 1 + Blanks(s[1..])
  }

  /** The word at the head of s with its quotes removed, and the characters it takes. Quotes
      toggle; a blank outside quotes, the end of the line or a full buffer stops it. */
  function Word(s: string, quoted: bool, room: nat): (r: (string, nat))
    ensures r.1 <= |s| && |r.0| <= room
  {
    if s == [] || IsEndLine(s[0]) || (!quoted && IsSpace(s[0])) || room == 0 then ([], 0)
    else if s[0] == '"' then
      var (text, n) := Word(s[1..], !quoted, room);
      (text, n + 1)
    else
      var (text, n) := Word(s[1..], quoted, room - 1);
      ([s[0]] + text, n + 1)
  }

  const ROOM: nat := MAX_CFG_STRING_SIZE - 1

  function SkipBlanks(s: string): string {
    s[Blanks(s)..]
  }

  /** What remains of s after its first word and the blanks behind it. */
  function NextWord(s: string): string {
    SkipBlanks(s[Word(s, false, ROOM).1..])
  }

  /** What remains of s from its word number k on, if the reader reaches one. */
  function ParamAt(s: string, k: nat): Option<string>
    decreases k
  {
    if k == 0 then Some(s)
    else
      var t := NextWord(s);
      if Stops(t) then None else ParamAt(t, k - 1)
  }

  function Param(line: string, k: nat): Option<string> {
    match ParamAt(SkipBlanks(line), k)
    case None => None
    case Some(t) => Some(Word(t, false, ROOM).0)
  }

  /** A string that still has its terminator ahead. */
  predicate Ends(s: string) {
    '\0' in s
  }

  method GetNextWord(line: string, offset: nat) returns (r: nat)
    requires offset <= |line| && Ends(line[offset..])
    ensures offset <= r < |line| && line[r..] == SkipBlanks(line[offset..]) && Ends(line[r..])
  {
    r := offset;
    while !IsEndLine(line[r]) && line[r] == ' '
      invariant offset <= r < |line| && Ends(line[r..])
      invariant SkipBlanks(line[r..]) == SkipBlanks(line[offset..])
      decreases |line| - r
    {
      assert line[r..][1..] == line[r + 1..];
      r := r + 1;
    }
  }

  /** The word that goes on at offs is the given text and ends at the given offset. */
  ghost predicate WordLeft(line: string, offs: nat, quoted: bool, room: nat, text: string, end: nat) {
    && offs <= |line| && Ends(line[offs..])
    && Word(line[offs..], quoted, room).0 == text && offs + Word(line[offs..], quoted, room).1 == end
  }

  method CopyParam(dest: array?<char>, line: string, start: nat) returns (offs: nat)
    requires dest != null ==> dest.Length >= MAX_CFG_STRING_SIZE
    requires start <= |line| && Ends(line[start..])
    modifies if dest == null then {} else {dest}
    ensures offs == start + Word(line[start..], false, ROOM).1 && offs <= |line| && Ends(line[offs..])
    ensures dest != null ==> var text := Word(line[start..], false, ROOM).0;
            dest[..|text|] == text && dest[|text|] == '\0'
  {
    var i: nat, insidequote := 0, false;
    offs := start;
    ghost var text, end: nat := Word(line[start..], false, ROOM).0, start + Word(line[start..], false, ROOM).1;
    while !IsEndLine(line[offs]) && (insidequote || !IsSpace(line[offs])) && i < ROOM
      invariant offs < |line| && i <= ROOM && Copied(dest, line, offs, insidequote, i, text, end)
      decreases |line| - offs
    {
      insidequote, i := CopyLetter(dest, line, offs, insidequote, i, text, end);
      offs := offs + 1;
    }
    if dest != null {
      dest[i] := '\0';
    }
  }

  /** The first i letters of the word are copied; the rest of it goes on at offs. */
  ghost predicate Copied(dest: array?<char>, line: string, offs: nat, quoted: bool, i: nat, text: string, end: nat)
    reads dest
  {
    && i <= ROOM && i <= |text| && WordLeft(line, offs, quoted, ROOM - i, text[i..], end)
    && (dest != null ==> i <= dest.Length && dest[..i] == text[..i])
  }

  /** One round: a quote is dropped, a letter is copied. */
  method CopyLetter(dest: array?<char>, line: string, offs: nat, quoted: bool, i: nat, ghost text: string, ghost end: nat)
    returns (insidequote: bool, n: nat)
    requires dest != null ==> dest.Length >= MAX_CFG_STRING_SIZE
    requires offs < |line| && !IsEndLine(line[offs]) && (quoted || !IsSpace(line[offs])) && i < ROOM
    requires Copied(dest, line, offs, quoted, i, text, end)
    modifies if dest == null then {} else {dest}
    ensures offs + 1 < |line| && Copied(dest, line, offs + 1, insidequote, n, text, end)
  {
    insidequote, n := quoted, i;
    ghost var left, room := text[i..], ROOM - i;
    WordStep(line, offs, quoted, room, left, end);
    if line[offs] != '"' {
      if dest != null {
        dest[n] := line[offs];
      }
      n := n + 1;
      assert text[n..] == left[1..] && ROOM - n == room - 1;
    } else {
      insidequote := !insidequote;
    }
  }

  /** A quote switches the mode, any other character is a letter of the word. */
  lemma WordStep(line: string, offs: nat, quoted: bool, room: nat, text: string, end: nat)
    requires offs < |line| && room > 0 && !IsEndLine(line[offs]) && (quoted || !IsSpace(line[offs]))
    requires WordLeft(line, offs, quoted, room, text, end)
    ensures offs + 1 < |line|
    ensures line[offs] == '"' ==> WordLeft(line, offs + 1, !quoted, room, text, end)
    ensures line[offs] != '"' ==> text != [] && text[0] == line[offs]
    ensures line[offs] != '"' ==> WordLeft(line, offs + 1, quoted, room - 1, text[1..], end)
  {
    assert line[offs..][0] == line[offs] && line[offs..][1..] == line[offs + 1..];
  }

  method SkipParam(line: string, offset: nat) returns (r: nat)
    requires offset <= |line| && Ends(line[offset..])
    ensures r < |line| && line[r..] == NextWord(line[offset..]) && line[r..][0] == line[r] && Ends(line[r..])
  {
    r := CopyParam(null, line, offset);
    assert line[offset..][r - offset..] == line[r..];
    r := GetNextWord(line, r);
  }

  /** Where the reader gives up: at the terminator or a comment. */
  predicate Stops(s: string) {
    s == [] || s[0] == '\0' || s[0] == '#'
  }

  ghost predicate WalkStep(a: string, b: string) {
    b == NextWord(a) && !Stops(b)
  }

  /** The words met so far, none of them the end. */
  ghost predicate Walk(path: seq<string>) {
    path != [] && forall i :: 0 < i < |path| ==> WalkStep(path[i - 1], path[i])
  }

  lemma WalkExtends(path: seq<string>, s: string)
    requires Walk(path) && WalkStep(path[|path| - 1], s)
    ensures Walk(path + [s])
  {
    var longer := path + [s];
    forall i | 0 < i < |longer|
      ensures WalkStep(longer[i - 1], longer[i])
    {
      if i < |path| {
        assert longer[i - 1] == path[i - 1] && longer[i] == path[i];
      }
    }
  }

  lemma {:induction false} WalkReaches(path: seq<string>, k: nat)
    requires Walk(path) && k >= |path| - 1
    ensures ParamAt(path[0], k) == ParamAt(path[|path| - 1], k - (|path| - 1))
  {
    var n := |path| - 1;
    if n > 0 {
      assert WalkStep(path[n - 1], path[n]);
      assert Walk(path[..n]);
      WalkReaches(path[..n], k);
    }
  }

  method GetParamOffset(line: string, param: nat) returns (r: int)
    requires Ends(line)
    ensures match ParamAt(SkipBlanks(line), param)
            case None => r == -1
            case Some(t) => 0 <= r <= |line| && line[r..] == t && Ends(t)
  {
    assert line[0..] == line;
    var offs := GetNextWord(line, 0);
    var count := 0;
    ghost var path := [line[offs..]];
    while count < param
      invariant 0 <= count <= param && offs < |line| && Ends(line[offs..])
      invariant Walk(path) && |path| == count + 1 && path[0] == SkipBlanks(line) && path[count] == line[offs..]
    {
      offs := SkipParam(line, offs);
      if line[offs] == '\0' || line[offs] == '#' {
        WalkReaches(path, param);
        return -1;
      }
      WalkExtends(path, line[offs..]);
      path := path + [line[offs..]];
      count := count + 1;
    }
    WalkReaches(path, param);
    r := offs;
  }

  /** Parameter k of the line, as the configuration reader stores it. */
  method GetParam(line: string, k: nat, param: array<char>) returns (r: int)
    requires Ends(line) && param.Length >= MAX_CFG_STRING_SIZE
    modifies param
    ensures match Param(line, k)
            case None => r == -1 && param[..] == old(param[..])
            case Some(text) => r == 1 && |text| <= ROOM && param[..|text|] == text && param[|text|] == '\0'
  {
    var offs := GetParamOffset(line, k);
    if offs >= 0 {
      var _ := CopyParam(param, line, offs);
      return 1;
    }
    return -1;
  }

  /** A word as it is written: in quotes or bare, with a number of blanks behind it. */
  datatype Token = Token(text: string, quoted: bool, gap: nat)
  {
    function Written(): string {
      if quoted then "\"" + text + "\"" else text
    }
  }

  /** Quotes carry any word without a quote and without a character that ends the line; a bare word has
      no blank or tab either, and is not empty. */
  predicate Writable(t: Token) {
    && (forall i :: 0 <= i < |t.text| ==> t.text[i] !in {'"', '\0', '#', '\r', '\n'})
    && (!t.quoted ==> t.text != [] && forall i :: 0 <= i < |t.text| ==> t.text[i] != ' ' && t.text[i] != '\t')
  }

  function Spaces(n: nat): (s: string)
    ensures |s| == n && forall i :: 0 <= i < n ==> s[i] == ' '
  {
    seq(n, _ => ' ')
  }

  /** Words, each followed by its own number of blanks, in front of the rest of a line. */
  function Render(words: seq<Token>, rest: string): string {
    if words == [] then rest
    else words[0].Written() + Spaces(words[0].gap) + Render(words[1..], rest)
  }

  predicate Separated(words: seq<Token>) {
    && (forall i :: 0 <= i < |words| ==> Writable(words[i]))
    && (forall i :: 0 <= i < |words| - 1 ==> words[i].gap > 0)
  }

  /** The rest of the line: NUL, a comment, CR or LF, and what follows. */
  predicate LineEnd(rest: string) {
    rest != [] && rest[0] in {'\0', '#', '\r', '\n'}
  }

  /** What of a word fits. */
  function Cut(w: string, room: nat): string {
    if |w| <= room then w else w[..room]
  }

  /** Blanks in front of anything else are skipped, and nothing more. */
  lemma {:induction false} BlanksSkipped(n: nat, s: string)
    requires s == [] || s[0] != ' '
    ensures Blanks(Spaces(n) + s) == n && SkipBlanks(Spaces(n) + s) == s
  {
    if n == 0 {
      assert Spaces(0) + s == s;
    } else {
      assert (Spaces(n) + s)[1..] == Spaces(n - 1) + s;
      BlanksSkipped(n - 1, s);
    }
  }

  predicate StopsWord(tail: string) {
    tail != [] && (IsEndLine(tail[0]) || IsSpace(tail[0]))
  }

  lemma CutStep(w: string, room: nat)
    requires w != [] && room > 0
    ensures Cut(w, room) == [w[0]] + Cut(w[1..], room - 1)
  {
  }

  lemma LetterStep(s: string, room: nat)
    requires s != [] && room > 0 && s[0] != '"' && !IsEndLine(s[0]) && !IsSpace(s[0])
    ensures var r, t := Word(s, false, room), Word(s[1..], false, room - 1); r.0 == [s[0]] + t.0 && r.1 == t.1 + 1
  {
  }

  /** Inside quotes a word is copied as far as it fits; with room to spare its closing quote is consumed. */
  lemma {:induction false} InsideQuotes(w: string, tail: string, room: nat)
    requires Writable(Token(w, true, 0)) && StopsWord(tail)
    ensures var r := Word(w + "\"" + tail, true, room); r.0 == Cut(w, room) && (|w| < room ==> r.1 == |w| + 1)
  {
    var s := w + "\"" + tail;
    if w == [] {
      assert s == "\"" + tail && s[1..] == tail;
    } else if room > 0 {
      assert s[0] == w[0] && s[1..] == w[1..] + "\"" + tail;
      InsideQuotes(w[1..], tail, room - 1);
      CutStep(w, room);
    }
  }

  /** A bare word is copied as far as it fits, up to what stops it. */
  lemma {:induction false} BareWord(w: string, tail: string, room: nat)
    requires (w == [] || Writable(Token(w, false, 0))) && StopsWord(tail)
    ensures var r := Word(w + tail, false, room); r.0 == Cut(w, room) && (|w| < room ==> r.1 == |w|)
  {
    var s := w + tail;
    if w == [] {
      assert s == tail;
    } else if room > 0 {
      assert s[0] == w[0] && s[1..] == w[1..] + tail;
      BareWord(w[1..], tail, room - 1);
      CutStep(w, room);
      LetterStep(s, room);
    }
  }

  lemma WrittenWord(t: Token, tail: string)
    requires Writable(t) && StopsWord(tail)
    ensures var r := Word(t.Written() + tail, false, ROOM);
            r.0 == Cut(t.text, ROOM) && (|t.text| < ROOM ==> r.1 == |t.Written()|)
  {
    if t.quoted {
      var s := "\"" + t.text + "\"" + tail;
      assert s[0] == '"' && s[1..] == t.text + "\"" + tail;
      InsideQuotes(t.text, tail, ROOM);
    } else {
      BareWord(t.text, tail, ROOM);
    }
  }

  lemma WordThenBlanks(t: Token, more: string)
    requires Writable(t) && more != [] && more[0] != ' ' && (t.gap == 0 ==> StopsWord(more))
    ensures var s := t.Written() + (Spaces(t.gap) + more);
            Word(s, false, ROOM).0 == Cut(t.text, ROOM) && (|t.text| < ROOM ==> NextWord(s) == more)
  {
    var tail := Spaces(t.gap) + more;
    var s := t.Written() + tail;
    assert tail[0] == if t.gap > 0 then ' ' else more[0];
    WrittenWord(t, tail);
    BlanksSkipped(t.gap, more);
    assert s[|t.Written()|..] == tail;
  }

  lemma RenderedHead(words: seq<Token>, rest: string)
    requires Separated(words) && LineEnd(rest)
    ensures var s := Render(words, rest); s != [] && s[0] != ' ' && (words != [] ==> !Stops(s)) && (words == [] ==> s == rest)
  {
    if words != [] {
      assert Writable(words[0]) && words[0].Written() != [];
      assert Render(words, rest)[0] == words[0].Written()[0];
    }
  }

  lemma RenderStep(words: seq<Token>, rest: string)
    requires words != []
    ensures Render(words, rest) == words[0].Written() + (Spaces(words[0].gap) + Render(words[1..], rest))
  {
  }

  /** Past the first of some rendered words come the other words. */
  lemma FirstOfRendered(words: seq<Token>, rest: string)
    requires words != [] && Separated(words) && LineEnd(rest)
    ensures var s := Render(words, rest); var more := Render(words[1..], rest);
            && Word(s, false, ROOM).0 == Cut(words[0].text, ROOM)
            && (|words[0].text| < ROOM ==> NextWord(s) == more)
            && (|words| > 1 ==> !Stops(more))
  {
    var t, more := words[0], Render(words[1..], rest);
    RenderedHead(words[1..], rest);
    RenderStep(words, rest);
    WordThenBlanks(t, more);
  }

  lemma ParamStep(s: string, t: string, k: nat)
    requires k > 0 && NextWord(s) == t
    ensures ParamAt(s, k) == if Stops(t) then None else ParamAt(t, k - 1)
  {
  }

  /** The walk from word to word of a rendered line. */
  lemma RenderedWalk(words: seq<Token>, rest: string, k: nat) returns (path: seq<string>)
    requires Separated(words) && LineEnd(rest) && k < |words|
    requires forall i :: 0 <= i < k ==> |words[i].text| < ROOM
    ensures Walk(path) && |path| == k + 1 && path[0] == Render(words, rest) && path[k] == Render(words[k..], rest)
  {
    path := seq(k + 1, i requires 0 <= i <= k => Render(words[i..], rest));
    assert words[0..] == words;
    forall i | 0 < i < |path|
      ensures WalkStep(path[i - 1], path[i])
    {
      FirstOfRendered(words[i - 1..], rest);
      assert words[i - 1..][1..] == words[i..];
    }
  }

  /** Word k of a rendered line is found, and what is read there is that word, as far as it fits. */
  lemma RenderedParam(words: seq<Token>, rest: string, k: nat)
    requires Separated(words) && LineEnd(rest) && k < |words|
    requires forall i :: 0 <= i < k ==> |words[i].text| < ROOM
    ensures var t := ParamAt(Render(words, rest), k); t.Some? && Word(t.value, false, ROOM).0 == Cut(words[k].text, ROOM)
  {
    var path := RenderedWalk(words, rest, k);
    WalkReaches(path, k);
    FirstOfRendered(words[k..], rest);
  }

  lemma NoWordLeft(rest: string)
    requires LineEnd(rest)
    ensures NextWord(rest) == rest && Render([], rest) == rest
  {
    assert rest[0..] == rest;
  }

  lemma {:induction false} EndMissing(rest: string, k: nat)
    requires LineEnd(rest) && k > 0
    ensures ParamAt(rest, k) == if Stops(rest) then None else Some(rest)
  {
    NoWordLeft(rest);
    ParamStep(rest, rest, k);
    if k > 1 {
      EndMissing(rest, k - 1);
    }
  }

  lemma LaterParamMissing(words: seq<Token>, rest: string, k: nat)
    requires Separated(words) && LineEnd(rest) && k >= |words| && k > 0
    requires forall i :: 0 <= i < |words| ==> |words[i].text| < ROOM
    ensures ParamAt(Render(words, rest), k) == if Stops(rest) then None else Some(rest)
  {
    if words == [] {
      EndMissing(rest, k);
    } else {
      var path := LastWord(words, rest);
      WalkReaches(path, k);
      BeyondLast(path[|words| - 1], rest, k - (|words| - 1));
    }
  }

  /** The walk to the last word; the rest of the line is next. */
  lemma LastWord(words: seq<Token>, rest: string) returns (path: seq<string>)
    requires words != [] && Separated(words) && LineEnd(rest)
    requires forall i :: 0 <= i < |words| ==> |words[i].text| < ROOM
    ensures Walk(path) && |path| == |words| && path[0] == Render(words, rest) && NextWord(path[|words| - 1]) == rest
  {
    var n := |words| - 1;
    path := RenderedWalk(words, rest, n);
    FirstOfRendered(words[n..], rest);
    assert words[n..][1..] == [];
    NoWordLeft(rest);
  }

  lemma BeyondLast(last: string, rest: string, m: nat)
    requires LineEnd(rest) && NextWord(last) == rest && m > 0
    ensures ParamAt(last, m) == if Stops(rest) then None else Some(rest)
  {
    ParamStep(last, rest, m);
    if m > 1 {
      EndMissing(rest, m - 1);
    }
  }

  /** Beyond the last word the reader answers -1 only when the line ends in NUL or a comment;
      a CR or LF makes every missing word look present and empty. Parameter 0 of a line without words
      is never missed: the walk does not begin. */
  lemma MissingParam(words: seq<Token>, rest: string, k: nat)
    requires Separated(words) && LineEnd(rest) && k >= |words|
    requires forall i :: 0 <= i < |words| ==> |words[i].text| < ROOM
    ensures ParamAt(Render(words, rest), k)
         == if k > 0 && (rest[0] == '\0' || rest[0] == '#') then None else Some(rest)
  {
    if k > 0 {
      LaterParamMissing(words, rest, k);
    }
  }

  /** Writing words, bare or in quotes, and reading them back by number is the identity, for quoted words
      with inner blanks or tabs and for empty ones, up to the 511 characters the reader stores. */
  lemma ConfigRoundTrip(pad: nat, words: seq<Token>, rest: string, k: nat)
    requires Separated(words) && LineEnd(rest)
    requires forall i :: 0 <= i < |words| && i != k ==> |words[i].text| < 511
    ensures Param(Spaces(pad) + Render(words, rest), k)
         == if k < |words| then Some(Cut(words[k].text, 511))
            else if k > 0 && (rest[0] == '\0' || rest[0] == '#') then None
            else Some([])
  {
    var s := Render(words, rest);
    RenderedHead(words, rest);
    BlanksSkipped(pad, s);
    if k < |words| {
      RenderedParam(words, rest, k);
    } else {
      MissingParam(words, rest, k);
    }
  }

  /** The flag stands at i: it starts an item, and a comma, an equals sign or the end follows. */
  predicate FlagAt(str: string, i: nat, flag: string) {
    && i + |flag| <= |str|
    && (i == 0 || str[i - 1] == ',')
    && str[i..i + |flag|] == flag
    && (i + |flag| == |str| || str[i + |flag|] == ',' || str[i + |flag|] == '=')
  }

  /** The text at the head of s up to a comma, a blank or the end, or as much of it as fits. */
  ghost predicate ValueOf(s: string, v: string, room: nat) {
    && v <= s && |v| <= room && ',' !in v && ' ' !in v
    && (|v| == room || |v| == |s| || s[|v|] == ',' || s[|v|] == ' ')
  }

  /** The value after an equals sign, up to a comma or a blank. */
  function Value(s: string, room: nat): (v: string)
    ensures |v| <= room
  {
    if s == [] || s[0] == ',' || s[0] == ' ' || room == 0 then [] else [s[0]] + Value(s[1..], room - 1)
  }

  lemma {:induction false} ValueIs(s: string, room: nat)
    ensures ValueOf(s, Value(s, room), room)
  {
    if s != [] && s[0] != ',' && s[0] != ' ' && room > 0 {
      ValueIs(s[1..], room - 1);
    }
  }

  predicate FirstFlagAt(str: string, i: nat, flag: string, param: Option<string>) {
    && FlagAt(str, i, flag)
    && (forall j :: 0 <= j < i ==> !FlagAt(str, j, flag))
    && var next := i + |flag|;
       param == if next < |str| && str[next] == '=' then Some(Value(str[next + 1..], ROOM)) else None
  }

  /** A value is reported exactly behind an equals sign: what stands there up to a comma or a blank. */
  ghost predicate Reported(str: string, next: nat, param: Option<string>) {
    if next < |str| && str[next] == '=' then param.Some? && ValueOf(str[next + 1..], param.value, 511)
    else param == None
  }

  /** Finds the first item that is the flag, alone or with a value; reports the value if any. */
  method TestFlag(str: string, flag: string) returns (found: bool, param: Option<string>)
    requires '\0' !in str && '\0' !in flag
    ensures found <==> exists i :: 0 <= i < |str| && FlagAt(str, i, flag)
    ensures found ==> exists i :: 0 <= i < |str| && FirstFlagAt(str, i, flag, param)
    ensures found ==> exists i :: 0 <= i < |str| && FlagAt(str, i, flag) && Reported(str, i + |flag|, param)
  {
    var i, previous := 0, '\0';
    param := None;
    while i < |str|
      invariant 0 <= i <= |str| && previous == if i == 0 then '\0' else str[i - 1]
      invariant forall j :: 0 <= j < i ==> !FlagAt(str, j, flag)
    {
      if i + |flag| <= |str| && str[i..i + |flag|] == flag {
        var next := if i + |flag| == |str| then '\0' else str[i + |flag|];
        if (previous == '\0' || previous == ',') && (next == '\0' || next == ',' || next == '=') {
          if next == '=' {
            var text := CopyValue(str, i + |flag| + 1);
            param := Some(text);
            ValueIs(str[i + |flag| + 1..], ROOM);
          }
          assert FirstFlagAt(str, i, flag, param) && Reported(str, i + |flag|, param);
          return true, param;
        }
      }
      previous := str[i];
      i := i + 1;
    }
    found := false;
  }

  method CopyValue(str: string, start: nat) returns (text: string)
    requires start <= |str|
    ensures text == Value(str[start..], ROOM)
  {
    var i := start;
    text := [];
    while i < |str| && str[i] != ',' && str[i] != ' ' && |text| < ROOM
      invariant start <= i <= |str| && |text| <= ROOM
      invariant text + Value(str[i..], ROOM - |text|) == Value(str[start..], ROOM)
    {
      assert str[i..][0] == str[i] && str[i..][1..] == str[i + 1..];
      text := text + [str[i]];
      i := i + 1;
    }
  }

  /** The comma-separated items of an option list. */
  function Items(s: string): (items: seq<string>)
    ensures items != []
  {
    if s == [] then [[]]
    else
      var rest := Items(s[1..]);
      if s[0] == ',' then [[]] + rest else [[s[0]] + rest[0]] + rest[1..]
  }

  /** An item that is the flag itself, or the flag with a value. */
  predicate IsFlag(item: string, flag: string) {
    item == flag || (|flag| < |item| && item[..|flag|] == flag && item[|flag|] == '=')
  }

  /** The first item runs up to the first comma; the other items are those of what follows it. */
  lemma {:induction false} FirstItem(s: string)
    ensures var first := Items(s)[0];
            && |first| <= |s| && s[..|first|] == first && ',' !in first
            && (|first| < |s| ==> s[|first|] == ',' && Items(s) == [first] + Items(s[|first| + 1..]))
            && (|first| == |s| ==> Items(s) == [s])
  {
    if s != [] && s[0] != ',' {
      FirstItem(s[1..]);
      var first := Items(s[1..])[0];
      assert s[..1 + |first|] == [s[0]] + s[1..][..|first|];
      assert Items(s)[0] == [s[0]] + first;
      if |first| < |s| - 1 {
        assert s[1..][|first| + 1..] == s[|first| + 2..];
        assert Items(s[1..])[1..] == Items(s[|first| + 2..]);
      } else {
        assert Items(s[1..])[1..] == [] && [s[0]] + first == s;
      }
    }
  }

  /** A comma-free flag starts the list exactly when it is the first item. */
  lemma FlagAtStart(s: string, flag: string)
    requires flag != [] && ',' !in flag
    ensures FlagAt(s, 0, flag) <==> IsFlag(Items(s)[0], flag)
  {
    FirstItem(s);
    var first := Items(s)[0];
    if |flag| < |first| {
      assert s[|flag|] == s[..|first|][|flag|] && first[|flag|] in first;
      assert s[..|flag|] == s[..|first|][..|flag|];
    } else if |first| < |flag| <= |s| {
      assert s[..|flag|][|first|] == ',';
    }
  }

  /** Behind a comma the scan meets what a scan of the rest meets, and before it nothing but the start. */
  lemma FlagBehindComma(s: string, n: nat, flag: string)
    requires n < |s| && s[n] == ',' && ',' !in s[..n]
    ensures forall i :: n < i < |s| ==> (FlagAt(s, i, flag) <==> FlagAt(s[n + 1..], i - n - 1, flag))
    ensures forall i :: 0 < i <= n ==> !FlagAt(s, i, flag)
  {
    var t := s[n + 1..];
    forall i | n < i < |s|
      ensures FlagAt(s, i, flag) <==> FlagAt(t, i - n - 1, flag)
    {
      assert i + |flag| <= |s| ==> t[i - n - 1..i - n - 1 + |flag|] == s[i..i + |flag|];
    }
    forall i | 0 < i <= n
      ensures !FlagAt(s, i, flag)
    {
      assert s[i - 1] == s[..n][i - 1] && s[..n][i - 1] in s[..n];
    }
  }

  /** Scanning for the flag finds it exactly when it is one of the comma-separated items,
      alone or with a value. */
  lemma {:induction false} FlagIsAnItem(s: string, flag: string)
    requires flag != [] && ',' !in flag
    ensures (exists i :: 0 <= i < |s| && FlagAt(s, i, flag)) <==> (exists item :: item in Items(s) && IsFlag(item, flag))
    decreases |s|
  {
    FirstItem(s);
    FlagAtStart(s, flag);
    var n := |Items(s)[0]|;
    if n < |s| {
      var t := s[n + 1..];
      FlagIsAnItem(t, flag);
      FlagBehindComma(s, n, flag);
      if i :| 0 <= i < |s| && FlagAt(s, i, flag) {
        if i > n {
          assert FlagAt(t, i - n - 1, flag);
        }
      }
      if item :| item in Items(s) && IsFlag(item, flag) {
        if item != Items(s)[0] {
          assert item in Items(t);
          var i :| 0 <= i < |t| && FlagAt(t, i, flag);
          assert FlagAt(s, n + 1 + i, flag);
        }
      }
    } else {
      forall i | 0 < i < |s|
        ensures !FlagAt(s, i, flag)
      {
        assert s[i - 1] in s;
      }
    }
  }
}
