/** The nesting check on structured document metadata: an indentation stack over lines, and
    a bracket depth over characters outside quotes. */
module Nesting {
  import opened Wrappers
  import opened Sequences

  const MAX_STRUCTURED_NESTING := 32

  // ----- lines

  function FirstNewline(source: string): (i: nat)
    ensures i <= |source|
    ensures i < |source| ==> source[i] == '\n'
    ensures forall k :: 0 <= k < i ==> source[k] != '\n'
  {
    if source == "" || source[0] == '\n' then 0 else 1 + FirstNewline(source[1..])
  }

  function WithoutReturn(line: string): string {
    if line != "" && line[|line| - 1] == '\r' then line[..|line| - 1] else line
  }

  /** str::lines: a line ends at "\n" or "\r\n"; the last may lack its end. */
  function Lines(source: string): seq<string>
    decreases |source|
  {
    if source == "" then []
    else
      var i := FirstNewline(source);
      if i == |source| then [source]
      else [WithoutReturn(source[..i])] + Lines(source[i + 1..])
  }

  /** The number of leading blanks. */
  function Indentation(line: string): (n: nat)
    ensures n <= |line|
  {
    if line == "" || (line[0] != ' ' && line[0] != '\t') then 0 else 1 + Indentation(line[1..])
  }

  /** Neither blank nor a comment. */
  predicate HasContent(line: string) {
    var content := line[Indentation(line)..];
    content != "" && content[0] != '#'
  }

  /** The indentations of the lines with content. */
  function Indentations(lines: seq<string>): seq<nat> {
    if lines == [] then []
    else (if HasContent(lines[0]) then [Indentation(lines[0])] else []) + Indentations(lines[1..])
  }

  lemma {:induction false} IndentationsConcat(first: seq<string>, second: seq<string>)
    ensures Indentations(first + second) == Indentations(first) + Indentations(second)
  {
    if first == [] {
      assert first + second == second;
    } else {
      var own := if HasContent(first[0]) then [Indentation(first[0])] else [];
      assert (first + second)[1..] == first[1..] + second;
      IndentationsConcat(first[1..], second);
      Regroup(own, Indentations(first[1..]), Indentations(second));
    }
  }

  lemma {:induction false} IndentationsSnoc(lines: seq<string>, line: string)
    ensures Indentations(lines + [line])
            == Indentations(lines) + if HasContent(line) then [Indentation(line)] else []
  {
    IndentationsConcat(lines, [line]);
    assert [line][1..] == [];
  }

  // ----- open levels

  /** The positive indentations that every later line exceeds. */
  ghost function OpenLevels(indents: seq<nat>): set<nat> {
    set i | 0 <= i < |indents| && indents[i] > 0 && (forall k :: i < k < |indents| ==> indents[k] > indents[i])
      :: indents[i]
  }

  ghost predicate Increasing(stack: seq<nat>) {
    forall i, j :: 0 <= i < j < |stack| ==> stack[i] < stack[j]
  }

  ghost predicate OpenAt(indents: seq<nat>, i: nat, x: nat) {
    i < |indents| && indents[i] == x && x > 0 && forall k :: i < k < |indents| ==> indents[k] > x
  }

  lemma OpenLevel(indents: seq<nat>, x: nat)
    ensures x in OpenLevels(indents) <==> exists i: nat :: OpenAt(indents, i, x)
  {
    if x in OpenLevels(indents) {
      var i :| 0 <= i < |indents| && indents[i] == x && x > 0
               && forall k :: i < k < |indents| ==> indents[k] > indents[i];
      assert OpenAt(indents, i, x);
    }
    if i: nat :| OpenAt(indents, i, x) {
      assert indents[i] == x;
    }
  }

  lemma StillOpen(indents: seq<nat>, n: nat, x: nat, i: nat)
    ensures i < |indents| ==> (OpenAt(indents + [n], i, x) <==> OpenAt(indents, i, x) && x < n)
    ensures OpenAt(indents + [n], |indents|, x) <==> n > 0 && x == n
  {
    var longer := indents + [n];
    assert longer[|indents|] == n && forall k :: 0 <= k < |indents| ==> longer[k] == indents[k];
  }

  lemma OpenLevelSnoc(indents: seq<nat>, n: nat, x: nat)
    ensures x in OpenLevels(indents + [n]) <==> (x in OpenLevels(indents) && x < n) || (n > 0 && x == n)
  {
    var longer := indents + [n];
    OpenLevel(indents, x);
    OpenLevel(longer, x);
    if x in OpenLevels(longer) {
      var i: nat :| OpenAt(longer, i, x);
      StillOpen(indents, n, x, i);
      assert i < |indents| || i == |indents|;
    }
    if x in OpenLevels(indents) && x < n {
      var i: nat :| OpenAt(indents, i, x);
      StillOpen(indents, n, x, i);
      assert OpenAt(longer, i, x);
    }
    if n > 0 && x == n {
      StillOpen(indents, n, x, |indents|);
      assert OpenAt(longer, |indents|, x);
    }
  }

  lemma OpenLevelsSnoc(indents: seq<nat>, n: nat)
    ensures OpenLevels(indents + [n])
            == (set x | x in OpenLevels(indents) && x < n) + if n > 0 then {n} else {}
  {
    forall x: nat
      ensures x in OpenLevels(indents + [n]) <==> (x in OpenLevels(indents) && x < n) || (n > 0 && x == n)
    {
      OpenLevelSnoc(indents, n, x);
    }
  }

  lemma IncreasingCard(stack: seq<nat>)
    requires Increasing(stack)
    ensures |Elements(stack)| == |stack|
  {
    DistinctCard(stack);
  }

  /** The stack after a further content line. */
  ghost predicate StackOf(stack: seq<nat>, indents: seq<nat>) {
    Increasing(stack) && Elements(stack) == OpenLevels(indents)
  }

  /** Closes the levels a line does not exceed and opens its own. */
  method PushLine(stack: seq<nat>, indentation: nat, ghost indents: seq<nat>) returns (r: seq<nat>)
    requires StackOf(stack, indents)
    ensures StackOf(r, indents + [indentation])
  {
    r := stack;
    while r != [] && r[|r| - 1] >= indentation
      invariant r <= stack
      invariant forall x :: x in stack && x !in r ==> x >= indentation
    {
      var top := r[|r| - 1];
      r := r[..|r| - 1];
      assert stack[|r|] == top;
    }
    assert forall i :: 0 <= i < |r| ==> r[i] < indentation;
    OpenLevelsSnoc(indents, indentation);
    if indentation > 0 {
      r := r + [indentation];
    }
  }

  // ----- brackets

  predicate Opens(c: char) {
    c == '[' || c == '{'
  }

  predicate Closes(c: char) {
    c == ']' || c == '}'
  }

  /** Openings minus closings. */
  function Net(s: string): int {
    if s == "" then 0
    else (if Opens(s[0]) then 1 else if Closes(s[0]) then -1 else 0) + Net(s[1..])
  }

  lemma {:induction false} NetConcat(s: string, t: string)
    ensures Net(s + t) == Net(s) + Net(t)
  {
    if s == "" {
      assert s + t == t;
    } else {
      assert (s + t)[1..] == s[1..] + t;
      NetConcat(s[1..], t);
    }
  }

  /** What follows the quotation that `s` is inside of: in double quotes a backslash
      hides the next character. */
  function AfterQuote(s: string, delimiter: char): (rest: string)
    ensures |rest| <= |s|
    ensures s != "" ==> |rest| < |s|
  {
    if s == "" then ""
    else if delimiter == '"' && s[0] == '\\' then
      if |s| == 1 then "" else AfterQuote(s[2..], delimiter)
    else if s[0] == delimiter then s[1..]
    else AfterQuote(s[1..], delimiter)
  }

  /** The characters outside quotations, and outside the quotes themselves. */
  function Unquoted(s: string): string
    decreases |s|
  {
    if s == "" then ""
    else if s[0] == '\'' || s[0] == '"' then Unquoted(AfterQuote(s[1..], s[0]))
    else [s[0]] + Unquoted(s[1..])
  }

  /** What is still outside quotations, from inside a quotation or not. */
  function Ahead(s: string, quote: Option<char>, escaped: bool): string {
    match quote
    case None => Unquoted(s)
    case Some(delimiter) =>
      if escaped then if s == "" then "" else Unquoted(AfterQuote(s[1..], delimiter))
      else Unquoted(AfterQuote(s, delimiter))
  }

  /** `depth` is the most any suffix opens more than it closes. */
  ghost predicate DepthOf(depth: nat, s: string) {
    && (exists i :: 0 <= i <= |s| && Net(s[i..]) == depth)
    && (forall i :: 0 <= i <= |s| ==> Net(s[i..]) <= depth)
  }

  lemma DepthSnoc(depth: nat, s: string, c: char)
    requires DepthOf(depth, s)
    ensures DepthOf(DepthAfter(depth, c), s + [c])
  {
    var longer := s + [c];
    var step := if Opens(c) then 1 else if Closes(c) then -1 else 0;
    assert Net([c]) == step by {
      assert [c][1..] == "";
    }
    forall i | 0 <= i <= |s|
      ensures Net(longer[i..]) == Net(s[i..]) + step
    {
      assert longer[i..] == s[i..] + [c];
      NetConcat(s[i..], [c]);
    }
    assert longer[|longer|..] == "";
    var i :| 0 <= i <= |s| && Net(s[i..]) == depth;
    assert Net(longer[i..]) == depth + step;
    assert Net(longer[|longer|..]) == 0;
  }

  /** Some stretch opens more than the limit. */
  ghost predicate TooDeep(s: string) {
    exists i, j :: 0 <= i <= j <= |s| && Net(s[i..j]) > 32
  }

  lemma TooDeepSnoc(depth: nat, s: string, c: char)
    requires DepthOf(depth, s + [c])
    ensures TooDeep(s + [c]) <==> TooDeep(s) || depth > MAX_STRUCTURED_NESTING
  {
    var longer := s + [c];
    if TooDeep(longer) {
      var i, j :| 0 <= i <= j <= |longer| && Net(longer[i..j]) > MAX_STRUCTURED_NESTING;
      if j <= |s| {
        assert longer[i..j] == s[i..j];
      } else {
        assert longer[i..j] == longer[i..];
      }
    }
    if TooDeep(s) {
      var i, j :| 0 <= i <= j <= |s| && Net(s[i..j]) > MAX_STRUCTURED_NESTING;
      assert longer[i..j] == s[i..j];
    }
    if depth > MAX_STRUCTURED_NESTING {
      var i :| 0 <= i <= |longer| && Net(longer[i..]) == depth;
      assert longer[i..] == longer[i..|longer|];
    }
  }

  lemma TooDeepPrefix(s: string, t: string)
    requires TooDeep(s)
    ensures TooDeep(s + t)
  {
    var i, j :| 0 <= i <= j <= |s| && Net(s[i..j]) > MAX_STRUCTURED_NESTING;
    assert (s + t)[i..j] == s[i..j];
  }

  // ----- the check

  /** At no line are more levels open than the limit. */
  ghost predicate ShallowLines(indents: seq<nat>) {
    forall j :: 0 <= j <= |indents| ==> |OpenLevels(indents[..j])| <= 32
  }

  lemma ShallowSnoc(indents: seq<nat>, n: nat)
    requires ShallowLines(indents) && |OpenLevels(indents + [n])| <= MAX_STRUCTURED_NESTING
    ensures ShallowLines(indents + [n])
  {
    var longer := indents + [n];
    forall j | 0 <= j <= |longer|
      ensures |OpenLevels(longer[..j])| <= MAX_STRUCTURED_NESTING
    {
      if j <= |indents| {
        assert longer[..j] == indents[..j];
      } else {
        assert longer[..j] == longer;
      }
    }
  }

  lemma DeepPrefix(lines: seq<string>, i: nat)
    requires i <= |lines|
    requires |OpenLevels(Indentations(lines[..i]))| > MAX_STRUCTURED_NESTING
    ensures !ShallowLines(Indentations(lines))
  {
    assert lines == lines[..i] + lines[i..];
    IndentationsConcat(lines[..i], lines[i..]);
    var all, part := Indentations(lines), Indentations(lines[..i]);
    assert all[..|part|] == part;
  }

  /** The indentation stack of the check. */
  method IndentationWithinLimit(source: string) returns (ok: bool)
    ensures ok <==> ShallowLines(Indentations(Lines(source)))
  {
    var lines := Lines(source);
    var levels: seq<nat> := [];
    assert lines[..0] == [];
    for i := 0 to |lines|
      invariant StackOf(levels, Indentations(lines[..i]))
      invariant ShallowLines(Indentations(lines[..i]))
    {
      var line := lines[i];
      assert lines[..i + 1] == lines[..i] + [line];
      ghost var before := Indentations(lines[..i]);
      IndentationsSnoc(lines[..i], line);
      if HasContent(line) {
        var indentation := Indentation(line);
        levels := PushLine(levels, indentation, before);
        IncreasingCard(levels);
        if indentation > 0 && |levels| > MAX_STRUCTURED_NESTING {
          DeepPrefix(lines, i + 1);
          return false;
        }
        assert indentation == 0 ==> OpenLevels(before + [indentation]) == {} by {
          OpenLevelsSnoc(before, indentation);
        }
        ShallowSnoc(before, indentation);
      } else {
        assert before + [] == before;
      }
    }
    assert lines[..|lines|] == lines;
    ok := true;
  }

  /** The scanner's state after one more character. */
  function Scanned(c: char, quote: Option<char>, escaped: bool): (Option<char>, bool) {
    if quote.Some? then
      if quote.value == '"' && c == '\\' && !escaped then (quote, true)
      else if c == quote.value && !escaped then (None, false)
      else (quote, false)
    else if c == '\'' || c == '"' then (Some(c), false)
    else (None, false)
  }

  lemma AheadStep(c: char, rest: string, quote: Option<char>, escaped: bool)
    requires escaped ==> quote == Some('"')
    ensures Ahead([c] + rest, quote, escaped)
            == (if quote.None? && c != '\'' && c != '"' then [c] else [])
               + Ahead(rest, Scanned(c, quote, escaped).0, Scanned(c, quote, escaped).1)
  {
    var s := [c] + rest;
    assert s[1..] == rest;
    if |s| >= 2 {
      assert s[2..] == rest[1..];
    }
  }

  /** After `i` characters, `seen` of them outside quotations. */
  ghost predicate ScannedTo(source: string, i: nat, seen: string, quote: Option<char>, escaped: bool)
    requires i <= |source|
  {
    seen + Ahead(source[i..], quote, escaped) == Unquoted(source)
  }

  lemma ScanStep(source: string, i: nat, seen: string, quote: Option<char>, escaped: bool)
    requires i < |source| && (escaped ==> quote == Some('"'))
    requires ScannedTo(source, i, seen, quote, escaped)
    ensures var c := source[i];
            var outside := if quote.None? && c != '\'' && c != '"' then [c] else [];
            ScannedTo(source, i + 1, seen + outside, Scanned(c, quote, escaped).0, Scanned(c, quote, escaped).1)
  {
    var c, rest := source[i], source[i + 1..];
    var outside := if quote.None? && c != '\'' && c != '"' then [c] else [];
    var ahead := Ahead(rest, Scanned(c, quote, escaped).0, Scanned(c, quote, escaped).1);
    assert Ahead(source[i..], quote, escaped) == outside + ahead by {
      assert source[i..] == [c] + rest;
      AheadStep(c, rest, quote, escaped);
    }
    Regroup(seen, outside, ahead);
  }

  lemma ScanEnd(source: string, seen: string, quote: Option<char>, escaped: bool)
    requires ScannedTo(source, |source|, seen, quote, escaped)
    ensures seen == Unquoted(source)
  {
    assert source[|source|..] == "" && seen + "" == seen;
  }

  lemma ScanTooDeep(source: string, i: nat, seen: string, quote: Option<char>, escaped: bool)
    requires i <= |source| && ScannedTo(source, i, seen, quote, escaped)
    requires TooDeep(seen)
    ensures TooDeep(Unquoted(source))
  {
    TooDeepPrefix(seen, Ahead(source[i..], quote, escaped));
  }

  function DepthAfter(depth: nat, c: char): nat {
    if Opens(c) then depth + 1 else if Closes(c) && depth > 0 then depth - 1 else depth
  }

  /** The scan after `i` characters. */
  ghost predicate Scanning(source: string, i: nat, seen: string, quote: Option<char>, escaped: bool, depth: nat) {
    && i <= |source| && (escaped ==> quote == Some('"'))
    && ScannedTo(source, i, seen, quote, escaped)
    && DepthOf(depth, seen) && depth <= 32 && !TooDeep(seen)
  }

  lemma ScanStarts(source: string)
    ensures Scanning(source, 0, "", None, false, 0)
  {
    assert source[0..] == source && Net(""[0..]) == 0;
  }

  /** A character of a quotation, or one that begins it, is passed over. */
  lemma ScanQuoted(source: string, i: nat, seen: string, quote: Option<char>, escaped: bool, depth: nat)
    requires Scanning(source, i, seen, quote, escaped, depth) && i < |source|
    requires quote.Some? || source[i] == '\'' || source[i] == '"'
    ensures var next := Scanned(source[i], quote, escaped);
            Scanning(source, i + 1, seen, next.0, next.1, depth)
  {
    ScanStep(source, i, seen, quote, escaped);
    assert seen + [] == seen;
  }

  /** Any other character is counted. */
  lemma ScanPlain(source: string, i: nat, seen: string, escaped: bool, depth: nat)
    requires Scanning(source, i, seen, None, escaped, depth) && i < |source|
    requires source[i] != '\'' && source[i] != '"'
    ensures var next := DepthAfter(depth, source[i]);
            if next > 32 then TooDeep(Unquoted(source))
            else Scanning(source, i + 1, seen + [source[i]], None, false, next)
  {
    var c := source[i];
    ScanStep(source, i, seen, None, escaped);
    DepthSnoc(depth, seen, c);
    TooDeepSnoc(DepthAfter(depth, c), seen, c);
    if DepthAfter(depth, c) > 32 {
      ScanTooDeep(source, i + 1, seen + [c], None, false);
    }
  }

  /** The bracket scan of the check: quote-aware, and never below zero. */
  method BracketsWithinLimit(source: string) returns (ok: bool)
    ensures ok <==> !TooDeep(Unquoted(source))
  {
    var depth: nat := 0;
    var quote: Option<char> := None;
    var escaped := false;
    ghost var seen := "";
    ScanStarts(source);
    for i := 0 to |source|
      invariant Scanning(source, i, seen, quote, escaped, depth)
    {
      var character := source[i];
      if quote.Some? {
        ScanQuoted(source, i, seen, quote, escaped, depth);
        if quote.value == '"' && character == '\\' && !escaped {
          escaped := true;
          continue;
        }
        if character == quote.value && !escaped {
          quote := None;
        }
        escaped := false;
        continue;
      }
      if character == '\'' || character == '"' {
        ScanQuoted(source, i, seen, quote, escaped, depth);
        quote := Some(character);
        continue;
      }
      ScanPlain(source, i, seen, escaped, depth);
      seen := seen + [character];
      if Opens(character) {
        depth := depth + 1;
        if depth > MAX_STRUCTURED_NESTING {
          return false;
        }
      } else if Closes(character) {
        depth := if depth > 0 then depth - 1 else 0;
      }
    }
    ScanEnd(source, seen, quote, escaped);
    ok := true;
  }

  /** Structured metadata is accepted exactly when no line has more than the limit of levels
      open and no stretch outside quotations opens more than the limit of brackets. */
  method ValidateStructuralNesting(source: string) returns (ok: bool)
    ensures ok <==> ShallowLines(Indentations(Lines(source))) && !TooDeep(Unquoted(source))
  {
    var shallow := IndentationWithinLimit(source);
    if !shallow {
      return false;
    }
    ok := BracketsWithinLimit(source);
  }

  // ----- what the check sees

  /** Lines end at a newline, which a carriage return may precede. */
  lemma LinesEnd(line: string, rest: string)
    requires '\n' !in line
    ensures line == "" || line[|line| - 1] != '\r' ==> Lines(line + "\n" + rest) == [line] + Lines(rest)
    ensures Lines(line + "\r\n" + rest) == [line] + Lines(rest)
  {
    EndsAt(line, rest);
    ReturnEnds(line, rest);
  }

  lemma ReturnEnds(line: string, rest: string)
    requires '\n' !in line
    ensures Lines(line + "\r\n" + rest) == [line] + Lines(rest)
  {
    var longer := line + "\r";
    EndsAt(longer, rest);
    assert "\r\n" == "\r" + "\n";
    Regroup(line, "\r", "\n");
    assert longer[..|longer| - 1] == line;
  }

  /** The last line may lack its end. */
  lemma LastLine(line: string)
    requires '\n' !in line
    ensures Lines(line) == if line == "" then [] else [line]
  {
    NoNewline(line);
  }

  lemma {:induction false} NoNewline(line: string)
    requires '\n' !in line
    ensures FirstNewline(line) == |line|
  {
    if line != "" {
      assert line[0] in line;
      NoNewline(line[1..]);
    }
  }

  lemma EndsAt(line: string, rest: string)
    requires '\n' !in line
    ensures Lines(line + "\n" + rest) == [WithoutReturn(line)] + Lines(rest)
  {
    var source := line + "\n" + rest;
    var i := FirstNewline(source);
    assert source[|line|] == '\n';
    assert forall k :: 0 <= k < |line| ==> source[k] == line[k] && line[k] in line;
    assert i == |line|;
    assert source[..i] == line && source[i + 1..] == rest;
  }

  /** Leading blanks and tabs are the indentation; what follows is content unless it is nothing or
      begins a comment. */
  lemma {:induction false} ContentMeaning(line: string)
    ensures var n := Indentation(line);
            && (forall k :: 0 <= k < n ==> line[k] == ' ' || line[k] == '\t')
            && (n < |line| ==> line[n] != ' ' && line[n] != '\t')
            && (HasContent(line) <==> n < |line| && line[n] != '#')
  {
    if line != "" && (line[0] == ' ' || line[0] == '\t') {
      ContentMeaning(line[1..]);
      assert line[Indentation(line)..] == line[1..][Indentation(line[1..])..];
    }
  }

  /** Square brackets and braces count, opening for one and closing against one. */
  lemma {:induction false} NetMeaning(s: string)
    ensures Net(s) + multiset(s)[']'] + multiset(s)['}'] == multiset(s)['['] + multiset(s)['{']
  {
    if s != "" {
      NetMeaning(s[1..]);
      assert s == [s[0]] + s[1..];
    }
  }

  /** What can stand between the quotes: not the quote itself, except that in double quotes a
      backslash takes the character after it along. */
  ghost predicate Quotable(s: string, delimiter: char) {
    if s == "" then true
    else if delimiter == '"' && s[0] == '\\' then |s| > 1 && Quotable(s[2..], delimiter)
    else s[0] != delimiter && Quotable(s[1..], delimiter)
  }

  lemma {:induction false} QuotationEnds(body: string, delimiter: char, rest: string)
    requires Quotable(body, delimiter)
    requires delimiter == '\'' || delimiter == '"'
    ensures AfterQuote(body + [delimiter] + rest, delimiter) == rest
    ensures AfterQuote(body, delimiter) == ""
    decreases |body|
  {
    var s := body + [delimiter] + rest;
    if body == "" {
      assert s[1..] == rest;
    } else if delimiter == '"' && body[0] == '\\' {
      QuotationEnds(body[2..], delimiter, rest);
      assert s[2..] == body[2..] + [delimiter] + rest;
    } else {
      QuotationEnds(body[1..], delimiter, rest);
      assert s[1..] == body[1..] + [delimiter] + rest;
    }
  }

  ghost predicate Plain(s: string) {
    '\'' !in s && '"' !in s
  }

  lemma {:induction false} PlainStays(s: string, rest: string)
    requires Plain(s)
    ensures Unquoted(s + rest) == s + Unquoted(rest)
  {
    if s == "" {
      assert s + rest == rest;
    } else {
      assert s[0] in s;
      PlainStays(s[1..], rest);
      assert (s + rest)[1..] == s[1..] + rest;
    }
  }

  lemma QuoteSkipped(delimiter: char, body: string, rest: string)
    requires (delimiter == '\'' || delimiter == '"') && Quotable(body, delimiter)
    ensures Unquoted([delimiter] + (body + [delimiter] + rest)) == Unquoted(rest)
    ensures Unquoted([delimiter] + body) == ""
  {
    QuotationEnds(body, delimiter, rest);
    assert ([delimiter] + (body + [delimiter] + rest))[1..] == body + [delimiter] + rest;
    assert ([delimiter] + body)[1..] == body;
  }

  /** Only what stands outside quotations is looked at: single or double quotes, and a quotation
      that never ends reaches to the end. */
  lemma QuotationsSkipped(before: string, delimiter: char, body: string, rest: string)
    requires Plain(before) && (delimiter == '\'' || delimiter == '"') && Quotable(body, delimiter)
    ensures Unquoted(before + ([delimiter] + (body + [delimiter] + rest))) == before + Unquoted(rest)
    ensures Unquoted(before + ([delimiter] + body)) == before + ""
  {
    QuoteSkipped(delimiter, body, rest);
    PlainStays(before, [delimiter] + (body + [delimiter] + rest));
    PlainStays(before, [delimiter] + body);
  }

  lemma NothingQuoted(s: string)
    requires Plain(s)
    ensures Unquoted(s) == s
  {
    PlainStays(s, "");
    assert s + "" == s;
  }
}
