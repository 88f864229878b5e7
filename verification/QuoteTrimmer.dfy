/**
 Dropping quoted parts of an HTML message: a single pass over the bytes that counts the depth of the quoted
 element it is in, and the tree it stands for.
 */
module QuoteTrimmer {
  import opened Text

  // ---------------------------------------------------------------- characters

  predicate IsAlphanumeric(c: char) { 'A' <= c <= 'Z' || 'a' <= c <= 'z' || '0' <= c <= '9' }

  predicate IsSpace(c: char) { c == ' ' || c == '\t' || c == '\r' || c == '\n' }

  const CAPITALS := "ABCDEFGHIJKLMNOPQRSTUVWXYZ"
  const SMALL_LETTERS := "abcdefghijklmnopqrstuvwxyz"
  const DIGITS := "0123456789"

  lemma CapitalsAre(c: char)
    ensures c in CAPITALS <==> 'A' <= c <= 'Z'
  {
    if 'A' <= c <= 'Z' {
      assert CAPITALS[c as int - 'A' as int] == c;
    }
  }

  lemma SmallLettersAre(c: char)
    ensures c in SMALL_LETTERS <==> 'a' <= c <= 'z'
  {
    if 'a' <= c <= 'z' {
      assert SMALL_LETTERS[c as int - 'a' as int] == c;
    }
  }

  lemma DigitsAre(c: char)
    ensures c in DIGITS <==> '0' <= c <= '9'
  {
    if '0' <= c <= '9' {
      assert DIGITS[c as int - '0' as int] == c;
    }
  }

  /** The characters of names, and those between them. */
  lemma CharactersAre(c: char)
    ensures IsAlphanumeric(c) <==> c in CAPITALS || c in SMALL_LETTERS || c in DIGITS
    ensures IsSpace(c) <==> c in " \t\r\n"
  {
    CapitalsAre(c);
    SmallLettersAre(c);
    DigitsAre(c);
  }

  /** `strspn` */
  function Span(s: string, p: char -> bool): (n: nat)
    ensures n <= |s| && (forall i :: 0 <= i < n ==> p(s[i])) && (n < |s| ==> !p(s[n]))
  {
    if s == "" || !p(s[0]) then 0 else 1 + Span(s[1..], p)
  }

  lemma {:induction false} SpanIs(s: string, p: char -> bool, n: nat)
    requires n <= |s| && (forall i :: 0 <= i < n ==> p(s[i])) && (n < |s| ==> !p(s[n]))
    ensures Span(s, p) == n
  {
    if n > 0 {
      SpanIs(s[1..], p, n - 1);
    }
  }

  const MATCHING_END_OPAQUE_ELEMENTS: set<string> :=
    {"script", "style", "xmp", "iframe", "noembed", "noframes", "noscript", "title", "textarea"}

  const EOF_OPAQUE_ELEMENT := "plaintext"

  // ---------------------------------------------------------------- one tag, at the start of a text

  datatype Closing = Closing(name: string, end: nat)

  /** `closingTag` */
  function Closer(s: string): (c: Option<Closing>)
    ensures c.Some? ==> 4 <= c.value.end <= |s| && forall i :: 1 <= i < c.value.end ==> s[i] != '<'
  {
    if !("</" <= s) then None
    else
      var n := Span(s[2..], IsAlphanumeric);
      var w := Span(s[2 + n..], IsSpace);
      var end := 2 + n + w;
      if n == 0 || end >= |s| || s[end] != '>' then None
      else
        assert forall i :: 2 <= i < 2 + n ==> s[i] == s[2..][i - 2] && IsAlphanumeric(s[i]);
        assert forall i :: 2 + n <= i < end ==> s[i] == s[2 + n..][i - 2 - n] && IsSpace(s[i]);
        Some(Closing(Lower(s[2..2 + n]), end + 1))
  }

  datatype Tag = Tag(valid: bool, name: string, attributes: string, end: nat, selfClosing: bool)

  /** `malformedTag` */
  function Malformed(start: nat, end: nat): Tag {
    Tag(false, "", "", if end < start + 1 then start + 1 else end, false)
  }

  /** Whether the attributes end in a slash. */
  function SelfCloses(attributes: string): bool {
    if attributes == "" then false
    else
      var last := attributes[|attributes| - 1];
      if IsSpace(last) then SelfCloses(attributes[..|attributes| - 1]) else last == '/'
  }

  /** Only space follows the slash. */
  ghost predicate LastSlash(attributes: string, at: int) {
    0 <= at < |attributes| && attributes[at] == '/' && forall i :: at < i < |attributes| ==> IsSpace(attributes[i])
  }

  /** They do when only space follows the last slash. */
  lemma {:induction false} SelfClosesTells(attributes: string)
    ensures SelfCloses(attributes) <==> exists at :: LastSlash(attributes, at)
  {
    if attributes != "" {
      var n := |attributes| - 1;
      var shorter := attributes[..n];
      if IsSpace(attributes[n]) {
        SelfClosesTells(shorter);
        forall at ensures LastSlash(attributes, at) <==> LastSlash(shorter, at) {
          if LastSlash(attributes, at) {
            forall i | at < i < n ensures IsSpace(shorter[i]) {
              assert shorter[i] == attributes[i];
            }
          }
        }
      } else {
        assert attributes[n] == '/' ==> LastSlash(attributes, n);
        forall at | LastSlash(attributes, at) ensures attributes[n] == '/' {
          assert at == n;
        }
      }
    }
  }

  datatype End = Closed(at: nat) | Broken(at: nat)

  /** Where the tag ends from position i on, inside or outside a quoted value. */
  function TagEnd(s: string, i: nat, quote: Option<char>, recovery: Option<nat>): (e: End)
    requires i <= |s| && (recovery.Some? ==> recovery.value <= |s|)
    ensures e.Closed? ==> i <= e.at < |s|
    ensures e.Broken? ==> e.at <= |s|
    decreases |s| - i
  {
    if i == |s| then Broken(if recovery.Some? then recovery.value else i)
    else
      var c := s[i];
      if quote.Some? then
        if c == quote.value then TagEnd(s, i + 1, None, recovery)
        else if c == '<' && recovery.None? then TagEnd(s, i + 1, quote, Some(i))
        else TagEnd(s, i + 1, quote, recovery)
      else if c == '"' || c == '\'' then TagEnd(s, i + 1, Some(c), recovery)
      else if c == '<' then Broken(if recovery.Some? then recovery.value else i)
      else if c == '>' then Closed(i)
      else TagEnd(s, i + 1, None, recovery)
  }

  /** The quotation that is open after a character. */
  function QuoteNext(c: char, quote: Option<char>): Option<char> {
    if quote.Some? then (if c == quote.value then None else quote)
    else if c == '"' || c == '\'' then Some(c) else None
  }

  /** The quotation that is open at position k when one is open, or none, at position i. */
  function QuoteAt(s: string, i: nat, k: nat, quote: Option<char>): Option<char>
    requires i <= k <= |s|
    decreases k - i
  {
    if i == k then quote else QuoteAt(s, i + 1, k, QuoteNext(s[i], quote))
  }

  /** An angle bracket that stands outside any quotation. */
  predicate Bare(s: string, i: nat, k: int, quote: Option<char>, bracket: char) {
    i <= k < |s| && s[k] == bracket && QuoteAt(s, i, k, quote).None?
  }

  predicate AnyBare(s: string, i: nat, k: int, quote: Option<char>) {
    Bare(s, i, k, quote, '<') || Bare(s, i, k, quote, '>')
  }

  /** The first `<` from a position on, quoted or not, or the end of the text. */
  function FirstLess(s: string, i: nat): (k: nat)
    requires i <= |s|
    ensures i <= k <= |s| && (k < |s| ==> s[k] == '<') && forall j :: i <= j < k ==> s[j] != '<'
    decreases |s| - i
  {
    if i == |s| || s[i] == '<' then i else FirstLess(s, i + 1)
  }

  ghost predicate NoneBare(s: string, i: nat, end: int, quote: Option<char>) {
    forall k :: k < end ==> !AnyBare(s, i, k, quote)
  }

  predicate IsQuote(quote: Option<char>) { quote in {None, Some('"'), Some('\'')} }

  lemma OneFurther(s: string, i: nat, quote: Option<char>)
    requires i < |s|
    ensures forall k: int, bracket | i < k ::
              Bare(s, i, k, quote, bracket) <==> Bare(s, i + 1, k, QuoteNext(s[i], quote), bracket)
  {
  }

  /** A tag ends at the first bare bracket, when that is a `>`. */
  lemma {:induction false} ClosedTells(s: string, i: nat, quote: Option<char>, recovery: Option<nat>)
    requires i <= |s| && (recovery.Some? ==> recovery.value <= |s|) && IsQuote(quote)
    ensures var e := TagEnd(s, i, quote, recovery);
            e.Closed? ==> Bare(s, i, e.at, quote, '>') && NoneBare(s, i, e.at, quote)
    decreases |s| - i
  {
    if i < |s| && TagEnd(s, i, quote, recovery).Closed? {
      var at := TagEnd(s, i, quote, recovery).at;
      ClosedTells(s, i + 1, QuoteNext(s[i], quote), if quote.Some? && s[i] == '<' && recovery.None? then Some(i)
        else recovery);
      OneFurther(s, i, quote);
      forall k | k < at ensures !AnyBare(s, i, k, quote) {
        if k > i {
          assert !AnyBare(s, i + 1, k, QuoteNext(s[i], quote));
        }
      }
    }
  }

  /** Otherwise it is given up, and at the very first `<`, quoted or not, or at the end of the text. */
  lemma {:induction false} BrokenTells(s: string, i: nat, quote: Option<char>, recovery: Option<nat>)
    requires i <= |s| && (recovery.Some? ==> recovery.value <= |s|) && IsQuote(quote)
    ensures var e := TagEnd(s, i, quote, recovery);
            e.Broken? ==>
              && e.at == (if recovery.Some? then recovery.value else FirstLess(s, i))
              && forall k :: Bare(s, i, k, quote, '>') ==> exists j :: j < k && Bare(s, i, j, quote, '<')
    decreases |s| - i
  {
    if i < |s| && TagEnd(s, i, quote, recovery).Broken? && !Bare(s, i, i, quote, '<') {
      var next := QuoteNext(s[i], quote);
      BrokenTells(s, i + 1, next, if quote.Some? && s[i] == '<' && recovery.None? then Some(i) else recovery);
      OneFurther(s, i, quote);
      forall k | Bare(s, i, k, quote, '>') ensures exists j :: j < k && Bare(s, i, j, quote, '<') {
        var j :| j < k && Bare(s, i + 1, j, next, '<');
        assert Bare(s, i, j, quote, '<');
      }
    }
  }

  /** `openingTag` */
  function Opener(s: string): (t: Tag)
    requires s != "" && s[0] == '<'
    ensures 1 <= t.end <= |s|
  {
    var n := Span(s[1..], IsAlphanumeric);
    var boundary := 1 + n;
    if n == 0 || (boundary < |s| && !(s[boundary] == '/' || s[boundary] == '>' || IsSpace(s[boundary]))) then
      Malformed(0, 1)
    else
      match TagEnd(s, boundary, None, None)
      case Broken(at) => Malformed(0, at)
      case Closed(at) =>
        Tag(true, Lower(s[1..boundary]), s[boundary..at], at + 1, SelfCloses(s[boundary..at]))
  }

  /** A tag that is read is written as its name, in any case, and its attributes, with no bare bracket among them. */
  lemma OpenerTells(s: string)
    requires s != "" && s[0] == '<'
    ensures var tag := Opener(s);
            tag.valid ==>
              var n := tag.end - |tag.attributes| - 2;
              && 1 <= n && Lower(s[1..1 + n]) == tag.name && (forall i :: 1 <= i <= n ==> IsAlphanumeric(s[i]))
              && s[1 + n..tag.end - 1] == tag.attributes && Bare(s, 1 + n, tag.end - 1, None, '>')
              && NoneBare(s, 1 + n, tag.end - 1, None)
  {
    var n := Span(s[1..], IsAlphanumeric);
    forall i | 1 <= i <= n ensures IsAlphanumeric(s[i]) {
      assert s[i] == s[1..][i - 1];
    }
    ClosedTells(s, 1 + n, None, None);
  }

  /** A tag that can not be read is given up at once, or at the first `<` after its name, or at the end. */
  lemma BrokenOpener(s: string)
    requires s != "" && s[0] == '<'
    ensures var n := Span(s[1..], IsAlphanumeric);
            var named := n > 0 && (1 + n == |s| || s[1 + n] == '/' || s[1 + n] == '>' || IsSpace(s[1 + n]));
            !Opener(s).valid ==> Opener(s).end == if named then FirstLess(s, 1 + n) else 1
  {
    hide TagEnd, FirstLess, Span, Bare, SelfCloses, IsAlphanumeric;
    BrokenTells(s, 1 + Span(s[1..], IsAlphanumeric), None, None);
  }

  /** How a closing tag is written. */
  predicate WritesCloser(text: string, name: string, raw: string, space: string) {
    && text == "</" + raw + space + ">" && raw != "" && Lower(raw) == name
    && (forall i :: 0 <= i < |raw| ==> IsAlphanumeric(raw[i])) && (forall i :: 0 <= i < |space| ==> IsSpace(space[i]))
  }

  /** A closing tag that is read is written as one. */
  lemma CloserTells(s: string)
    ensures Closer(s).Some? ==>
              exists raw, space :: WritesCloser(s[..Closer(s).value.end], Closer(s).value.name, raw, space)
  {
    hide Lower, Span;
    if Closer(s).Some? {
      var n, end := Span(s[2..], IsAlphanumeric), Closer(s).value.end;
      var raw, space := s[2..2 + n], s[2 + n..end - 1];
      assert s[..end] == s[..2] + raw + space + s[end - 1..end];
      var after := s[2 + n..];
      assert space == after[..|space|] && |space| == Span(after, IsSpace);
      assert WritesCloser(s[..end], Closer(s).value.name, raw, space);
    }
  }

  /** The end of the first closing tag with the name, or of the text. */
  function RawEnd(s: string, name: string): (n: nat)
    ensures n <= |s|
  {
    if s == "" then 0
    else if Closer(s).Some? && Closer(s).value.name == name then Closer(s).value.end
    else 1 + RawEnd(s[1..], name)
  }

  /** `opaqueElementEnd` */
  function OpaqueEnd(s: string, tag: Tag): (n: nat)
    requires tag.end <= |s|
    ensures tag.end <= n <= |s|
  {
    if tag.name == EOF_OPAQUE_ELEMENT then |s|
    else if tag.name in MATCHING_END_OPAQUE_ELEMENTS then tag.end + RawEnd(s[tag.end..], tag.name)
    else tag.end
  }

  /** Where the first occurrence of a pattern ends, or the text. */
  function After(s: string, pattern: string): (n: nat)
    ensures n <= |s|
  {
    if pattern <= s then |pattern|
    else if s == "" then 0
    else 1 + After(s[1..], pattern)
  }

  function NotTag(c: char): bool { c != '<' }

  /** A closing tag of the element starts here. */
  predicate ClosesAt(s: string, name: string, at: nat) {
    at <= |s| && Closer(s[at..]).Some? && Closer(s[at..]).value.name == name
  }

  ghost predicate ClosesFirstAt(s: string, name: string, first: nat) {
    ClosesAt(s, name, first) && forall at: nat :: at < first ==> !ClosesAt(s, name, at)
  }

  /** Raw text ends with the first closing tag of its element, or with the text when there is none. */
  lemma {:induction false} RawEndTells(s: string, name: string)
    ensures || (RawEnd(s, name) == |s| && forall at: nat :: !ClosesAt(s, name, at))
            || exists first: nat ::
                 ClosesFirstAt(s, name, first) && RawEnd(s, name) == first + Closer(s[first..]).value.end
  {
    assert s[0..] == s;
    if s != "" && !ClosesAt(s, name, 0) {
      RawEndTells(s[1..], name);
      forall at: nat | 0 < at <= |s| ensures ClosesAt(s, name, at) <==> ClosesAt(s[1..], name, at - 1) {
        assert s[1..][at - 1..] == s[at..];
      }
      if first: nat :|
         ClosesFirstAt(s[1..], name, first) && RawEnd(s[1..], name) == first + Closer(s[1..][first..]).value.end {
        assert s[1..][first..] == s[first + 1..];
        assert ClosesFirstAt(s, name, first + 1);
      }
    }
  }

  predicate OccursAt(s: string, pattern: string, at: nat) { at <= |s| && pattern <= s[at..] }

  ghost predicate OccursFirstAt(s: string, pattern: string, first: nat) {
    OccursAt(s, pattern, first) && forall at: nat :: at < first ==> !OccursAt(s, pattern, at)
  }

  /** A comment ends with the first occurrence of its end, or with the text when there is none. */
  lemma {:induction false} AfterTells(s: string, pattern: string)
    requires pattern != ""
    ensures || (After(s, pattern) == |s| && forall at: nat :: !OccursAt(s, pattern, at))
            || exists first: nat :: OccursFirstAt(s, pattern, first) && After(s, pattern) == first + |pattern|
  {
    assert s[0..] == s;
    assert OccursAt(s, pattern, 0) ==> OccursFirstAt(s, pattern, 0);
    if s != "" && !OccursAt(s, pattern, 0) {
      AfterTells(s[1..], pattern);
      forall at: nat | 0 < at <= |s| ensures OccursAt(s, pattern, at) <==> OccursAt(s[1..], pattern, at - 1) {
        assert s[1..][at - 1..] == s[at..];
      }
      if first: nat :| OccursFirstAt(s[1..], pattern, first) && After(s[1..], pattern) == first + |pattern| {
        assert OccursFirstAt(s, pattern, first + 1);
      }
    }
  }

  // ---------------------------------------------------------------- the scanner as a function

  /** How many characters are taken, whether they are kept, and the quoted element the scanner is then in. */
  datatype Step = Step(n: nat, keep: bool, skipped: Option<string>, depth: int)

  function Take(s: string, skipped: Option<string>, depth: int, quoted: (string, string) -> bool): (step: Step)
    requires s != ""
    ensures 1 <= step.n <= |s|
  {
    if s[0] != '<' then Step(Span(s, NotTag), skipped.None?, skipped, depth)
    else if "<!--" <= s then Step(4 + After(s[4..], "-->"), skipped.None?, skipped, depth)
    else
      match Closer(s)
      case Some(c) =>
        if skipped == Some(c.name) then
          Step(c.end, false, if depth - 1 == 0 then None else skipped, depth - 1)
        else Step(c.end, skipped.None?, skipped, depth)
      case None =>
        var tag := Opener(s);
        if !tag.valid then Step(tag.end, skipped.None?, skipped, depth)
        else if skipped.Some? then
          var deeper := skipped == Some(tag.name) && !tag.selfClosing;
          Step(OpaqueEnd(s, tag), false, skipped, if deeper then depth + 1 else depth)
        else if quoted(tag.name, tag.attributes) then
          if tag.selfClosing then Step(tag.end, false, None, depth) else Step(tag.end, false, Some(tag.name), 1)
        else Step(OpaqueEnd(s, tag), true, None, depth)
  }

  function Scan(s: string, skipped: Option<string>, depth: int, quoted: (string, string) -> bool): string {
    if s == "" then ""
    else
      var step := Take(s, skipped, depth, quoted);
      (if step.keep then s[..step.n] else "") + Scan(s[step.n..], step.skipped, step.depth, quoted)
  }

  // ---------------------------------------------------------------- trees

  datatype Node =
    | Text(text: string)
    | Comment(text: string)
    | Element(open: string, attributes: string, children: Forest, close: string, space: string)
    | SelfClosing(open: string, attributes: string)
    | Void(open: string, attributes: string)
    | Raw(open: string, attributes: string, content: string, close: string, space: string)

  datatype Forest = Nil | Cons(first: Node, rest: Forest)

  function OpenTag(name: string, attributes: string): string { "<" + name + attributes + ">" }

  function CloseTag(name: string, space: string): string { "</" + name + space + ">" }

  function RenderNode(node: Node): string {
    match node
    case Text(text) => text
    case Comment(text) => "<!--" + text + "-->"
    case Element(open, attributes, children, close, space) =>
      OpenTag(open, attributes) + Render(children) + CloseTag(close, space)
    case SelfClosing(open, attributes) => OpenTag(open, attributes)
    case Void(open, attributes) => OpenTag(open, attributes)
    case Raw(open, attributes, content, close, space) => OpenTag(open, attributes) + content + CloseTag(close, space)
  }

  function Render(forest: Forest): string {
    match forest
    case Nil => ""
    case Cons(first, rest) => RenderNode(first) + Render(rest)
  }

  /** What is left of a node without its quoted elements. */
  function PruneNode(node: Node, quoted: (string, string) -> bool): Option<Node> {
    match node
    case Element(open, attributes, children, close, space) =>
      if quoted(Lower(open), attributes) then None
      else Some(Element(open, attributes, Prune(children, quoted), close, space))
    case SelfClosing(open, attributes) => if quoted(Lower(open), attributes) then None else Some(node)
    case _ => Some(node)
  }

  function Prune(forest: Forest, quoted: (string, string) -> bool): Forest {
    match forest
    case Nil => Nil
    case Cons(first, rest) =>
      match PruneNode(first, quoted)
      case None => Prune(rest, quoted)
      case Some(node) => Cons(node, Prune(rest, quoted))
  }

  function RenderLeft(node: Option<Node>): string {
    if node.None? then "" else RenderNode(node.value)
  }

  /** Quotes are balanced, and nothing outside them opens or closes a tag. */
  predicate Balanced(attributes: string, quote: Option<char>) {
    if attributes == "" then quote.None?
    else
      var c := attributes[0];
      if quote.Some? then Balanced(attributes[1..], if c == quote.value then None else quote)
      else c != '<' && c != '>' && Balanced(attributes[1..], if c == '"' || c == '\'' then Some(c) else None)
  }

  predicate IsName(name: string) {
    name != "" && forall i :: 0 <= i < |name| ==> IsAlphanumeric(name[i])
  }

  predicate OpenOk(name: string, attributes: string) {
    && IsName(name) && Balanced(attributes, None)
    && (attributes != "" ==> attributes[0] == '/' || IsSpace(attributes[0]))
  }

  predicate CloseOk(open: string, close: string, space: string) {
    && IsName(close) && Lower(close) == Lower(open)
    && (forall i :: 0 <= i < |space| ==> IsSpace(space[i]))
  }

  predicate IsOpaque(name: string) {
    Lower(name) == EOF_OPAQUE_ELEMENT || Lower(name) in MATCHING_END_OPAQUE_ELEMENTS
  }

  /** The first "-->" after the comment's text is the comment's own. */
  predicate CommentOk(text: string) {
    forall i :: 0 <= i < |text| ==> !("-->" <= (text + "-->")[i..])
  }

  /** Nothing in the text closes an element of the name. */
  predicate ClosesNowhere(content: string, name: string) {
    forall i :: 0 <= i < |content| ==> Closer(content[i..]).None? || Closer(content[i..]).value.name != name
  }

  /**
   The trees the scanner is for: balanced attribute quotes, no `<` in text, raw text only in leaves that are not
   themselves quoted, and no end tag left out except for elements of a void name, which are not quoted.
   */
  predicate WellFormedNode(node: Node, voids: set<string>, quoted: (string, string) -> bool) {
    match node
    case Text(text) => '<' !in text
    case Comment(text) => CommentOk(text)
    case Element(open, attributes, children, close, space) =>
      && OpenOk(open, attributes) && CloseOk(open, close, space) && !IsOpaque(open) && Lower(open) !in voids
      && !SelfCloses(attributes) && WellFormed(children, voids, quoted)
    case SelfClosing(open, attributes) => OpenOk(open, attributes) && !IsOpaque(open) && SelfCloses(attributes)
    case Void(open, attributes) =>
      && OpenOk(open, attributes) && !IsOpaque(open) && Lower(open) in voids && !SelfCloses(attributes)
      && !quoted(Lower(open), attributes)
    case Raw(open, attributes, content, close, space) =>
      && OpenOk(open, attributes) && CloseOk(open, close, space) && Lower(open) in MATCHING_END_OPAQUE_ELEMENTS
      && ClosesNowhere(content, Lower(open)) && !quoted(Lower(open), attributes)
  }

  predicate WellFormed(forest: Forest, voids: set<string>, quoted: (string, string) -> bool) {
    match forest
    case Nil => true
    case Cons(first, rest) => WellFormedNode(first, voids, quoted) && WellFormed(rest, voids, quoted)
  }

  // ---------------------------------------------------------------- what is read back from a rendering

  lemma {:induction false} BalancedEnds(pre: string, attributes: string, post: string, quote: Option<char>,
      recovery: Option<nat>)
    requires Balanced(attributes, quote) && (recovery.Some? ==> recovery.value <= |pre|)
    ensures TagEnd(pre + attributes + ">" + post, |pre|, quote, recovery) == Closed(|pre| + |attributes|)
    decreases |attributes|
  {
    var s := pre + attributes + ">" + post;
    if attributes != "" {
      var c := attributes[0];
      assert s[|pre|] == c;
      var next :=
        if quote.Some? then (if c == quote.value then None else quote)
        else if c == '"' || c == '\'' then Some(c) else None;
      var noted := if quote.Some? && c != quote.value && c == '<' && recovery.None? then Some(|pre|) else recovery;
      BalancedEnds(pre + [c], attributes[1..], post, next, noted);
      assert pre + [c] + attributes[1..] + ">" + post == s;
    } else {
      assert s[|pre|] == '>';
    }
  }

  lemma NameIsRead(name: string, rest: string)
    requires IsName(name) && (rest != "" ==> !IsAlphanumeric(rest[0]))
    ensures Span(name + rest, IsAlphanumeric) == |name|
  {
    SpanIs(name + rest, IsAlphanumeric, |name|);
  }

  /** The parts of an opening tag and of what follows. */
  lemma OpenTagParts(name: string, attributes: string, post: string)
    requires OpenOk(name, attributes)
    ensures var s, rest, n := OpenTag(name, attributes) + post, attributes + ">" + post, |name|;
            && s == "<" + name + attributes + ">" + post && s[1..] == name + rest && s[1..1 + n] == name
            && s[1 + n..1 + n + |attributes|] == attributes && s[1 + n] == rest[0]
            && (rest[0] == '>' || rest[0] == attributes[0])
            && s[0] == '<' && s[1] == name[0]
  {
    hide Balanced;
    var s, rest := OpenTag(name, attributes) + post, attributes + ">" + post;
    assert s == "<" + name + rest;
    assert s == "<" + name + attributes + ">" + post;
  }

  lemma OpenTagIsRead(name: string, attributes: string, post: string)
    requires OpenOk(name, attributes)
    ensures var s := OpenTag(name, attributes) + post;
            && s[0] == '<' && !("<!--" <= s) && Closer(s).None?
            && Opener(s) == Tag(true, Lower(name), attributes, |OpenTag(name, attributes)|, SelfCloses(attributes))
  {
    hide Span, TagEnd, SelfCloses, Balanced, Lower;
    OpenTagParts(name, attributes, post);
    NameIsRead(name, attributes + ">" + post);
    BalancedEnds("<" + name, attributes, post, None, None);
  }

  lemma CloseTagIsRead(open: string, close: string, space: string, post: string)
    requires CloseOk(open, close, space)
    ensures var s := CloseTag(close, space) + post;
            && s[0] == '<' && !("<!--" <= s)
            && Closer(s) == Some(Closing(Lower(open), |CloseTag(close, space)|))
  {
    hide Span, Lower;
    var s, rest := CloseTag(close, space) + post, space + ">" + post;
    assert s[0] == '<' && s[1] == '/';
    assert s == "</" + close + rest;
    assert s[2..] == close + rest && s[2..2 + |close|] == close && s[2 + |close|..] == rest;
    assert rest[0] == (space + ">")[0];
    NameIsRead(close, rest);
    SpanIs(rest, IsSpace, |space|) by {
      assert rest[|space|] == '>';
      assert forall i :: 0 <= i < |space| ==> rest[i] == space[i];
    }
    assert s[2 + |close| + |space|] == rest[|space|];
  }

  lemma {:induction false} CommentIsRead(text: string, post: string)
    requires CommentOk(text)
    ensures After(text + "-->" + post, "-->") == |text| + 3
    decreases |text|
  {
    var s, t := text + "-->" + post, text + "-->";
    if text == "" {
      assert s[..3] == "-->";
    } else {
      assert t[0..] == t && !("-->" <= t);
      assert s[..3] == t[..3] != "-->";
      assert CommentOk(text[1..]) by {
        forall i | 0 <= i < |text[1..]| ensures !("-->" <= (text[1..] + "-->")[i..]) {
          assert (text[1..] + "-->")[i..] == t[i + 1..];
        }
      }
      CommentIsRead(text[1..], post);
      assert s[1..] == text[1..] + "-->" + post;
    }
  }

  lemma {:induction false} SpanPrefix(s: string, p: char -> bool, m: nat)
    requires m <= |s|
    ensures Span(s[..m], p) == if Span(s, p) < m then Span(s, p) else m
  {
    if m > 0 && p(s[0]) {
      assert s[..m][1..] == s[1..][..m - 1];
      SpanPrefix(s[1..], p, m - 1);
    }
  }

  lemma PrefixParts(s: string, m: nat, n: nat)
    requires 2 + n <= m <= |s|
    ensures s[..m][2..] == s[2..][..m - 2] && s[..m][2 + n..] == s[2 + n..][..m - 2 - n]
    ensures s[..m][2..2 + n] == s[2..2 + n]
    ensures "</" <= s ==> "</" <= s[..m]
  {
    assert s[..m][2..] == s[2..m] == s[2..][..m - 2];
    assert s[..m][2 + n..] == s[2 + n..m] == s[2 + n..][..m - 2 - n];
  }

  /** A closing tag is the same whatever follows it. */
  lemma CloserPrefix(s: string, m: nat)
    requires Closer(s).Some? && Closer(s).value.end <= m <= |s|
    ensures Closer(s[..m]) == Closer(s)
  {
    hide Span, Lower;
    var n := Span(s[2..], IsAlphanumeric);
    var t := s[..m];
    PrefixParts(s, m, n);
    SpanPrefix(s[2..], IsAlphanumeric, m - 2);
    SpanPrefix(s[2 + n..], IsSpace, m - 2 - n);
  }

  /** Before the next tag nothing closes the element unless the content does. */
  lemma NotClosedHere(content: string, name: string, rest: string)
    requires content != "" && (Closer(content).None? || Closer(content).value.name != name) && rest != ""
    requires rest[0] == '<'
    ensures Closer(content + rest).None? || Closer(content + rest).value.name != name
  {
    hide Span, Lower;
    var s := content + rest;
    if Closer(s).Some? {
      var end := Closer(s).value.end;
      assert s[|content|] == '<';
      CloserPrefix(s, |content|);
      assert s[..|content|] == content;
    }
  }

  lemma ClosesNowhereLater(content: string, name: string)
    requires content != "" && ClosesNowhere(content, name)
    ensures ClosesNowhere(content[1..], name)
  {
    hide Closer;
    forall i | 0 <= i < |content[1..]|
      ensures Closer(content[1..][i..]).None? || Closer(content[1..][i..]).value.name != name
    {
      assert content[1..][i..] == content[i + 1..];
    }
  }

  /** The first closing tag with the name, after content that has none, is the element's own. */
  lemma {:induction false} RawIsRead(content: string, name: string, tag: string, post: string)
    requires ClosesNowhere(content, name) && tag != "" && tag[0] == '<'
    requires Closer(tag + post) == Some(Closing(name, |tag|))
    ensures RawEnd(content + tag + post, name) == |content| + |tag|
    decreases |content|
  {
    hide Closer;
    var s := content + tag + post;
    assert s == content + (tag + post);
    if content == "" {
      assert s == tag + post;
    } else {
      assert content[0..] == content;
      NotClosedHere(content, name, tag + post);
      ClosesNowhereLater(content, name);
      RawIsRead(content[1..], name, tag, post);
      assert s[1..] == content[1..] + tag + post;
    }
  }

  // ---------------------------------------------------------------- scanning a rendering

  /** One step that takes a known piece. */
  lemma ScanPiece(piece: string, post: string, step: Step, skipped: Option<string>, depth: int,
      quoted: (string, string) -> bool)
    requires piece != "" && Take(piece + post, skipped, depth, quoted) == step && step.n == |piece|
    ensures Scan(piece + post, skipped, depth, quoted) ==
            (if step.keep then piece else "") + Scan(post, step.skipped, step.depth, quoted)
  {
    var s := piece + post;
    assert s[..|piece|] == piece && s[|piece|..] == post;
  }

  lemma {:induction false} SpanOver(text: string, post: string)
    requires '<' !in text
    ensures Span(text + post, NotTag) == |text| + Span(post, NotTag)
  {
    if text == "" {
      assert text + post == post;
    } else {
      assert (text + post)[1..] == text[1..] + post;
      SpanOver(text[1..], post);
    }
  }

  /** Text is kept or dropped as one with what follows it, which makes no difference. */
  lemma ScanText(text: string, post: string, skipped: Option<string>, depth: int, quoted: (string, string) -> bool)
    requires '<' !in text
    ensures Scan(text + post, skipped, depth, quoted) ==
            (if skipped.None? then text else "") + Scan(post, skipped, depth, quoted)
  {
    hide Span, Closer, Opener;
    if text == "" {
      assert text + post == post;
    } else {
      var s, n := text + post, Span(post, NotTag);
      assert s[0] == text[0];
      SpanOver(text, post);
      assert s[..|text| + n] == text + post[..n] && s[|text| + n..] == post[n..];
      if n == 0 {
        assert post[0..] == post;
      }
    }
  }

  lemma ScanComment(text: string, post: string, skipped: Option<string>, depth: int, quoted: (string, string) -> bool)
    requires CommentOk(text)
    ensures Scan(RenderNode(Comment(text)) + post, skipped, depth, quoted) ==
            (if skipped.None? then RenderNode(Comment(text)) else "") + Scan(post, skipped, depth, quoted)
  {
    var piece := "<!--" + text + "-->";
    var s := piece + post;
    assert s[..4] == "<!--" && s[4..] == text + "-->" + post;
    CommentIsRead(text, post);
    ScanPiece(piece, post, Step(|piece|, skipped.None?, skipped, depth), skipped, depth, quoted);
  }

  lemma ScanClose(open: string, close: string, space: string, post: string, skipped: Option<string>, depth: int,
                  quoted: (string, string) -> bool)
    requires CloseOk(open, close, space)
    ensures var piece := CloseTag(close, space);
            Scan(piece + post, skipped, depth, quoted) ==
            if skipped == Some(Lower(open)) then Scan(post, if depth - 1 == 0 then None else skipped, depth - 1, quoted)
            else (if skipped.None? then piece else "") + Scan(post, skipped, depth, quoted)
  {
    hide Closer, Lower, Scan;
    var piece := CloseTag(close, space);
    CloseTagIsRead(open, close, space, post);
    ScanPiece(piece, post, Take(piece + post, skipped, depth, quoted), skipped, depth, quoted);
  }

  /** An opening tag alone. */
  lemma ScanOpen(open: string, attributes: string, post: string, skipped: Option<string>, depth: int,
      quoted: (string, string) -> bool)
    requires OpenOk(open, attributes) && !IsOpaque(open)
    ensures var piece, name, closed := OpenTag(open, attributes), Lower(open), SelfCloses(attributes);
            Scan(piece + post, skipped, depth, quoted) ==
            if skipped.Some? then
              Scan(post, skipped, if skipped == Some(name) && !closed then depth + 1 else depth, quoted)
            else if !quoted(name, attributes) then piece + Scan(post, None, depth, quoted)
            else if closed then Scan(post, None, depth, quoted)
            else Scan(post, Some(name), 1, quoted)
  {
    hide Opener, Lower, Scan, SelfCloses;
    var piece := OpenTag(open, attributes);
    OpenTagIsRead(open, attributes, post);
    ScanPiece(piece, post, Take(piece + post, skipped, depth, quoted), skipped, depth, quoted);
  }

  /** A raw-text element is taken whole, whatever its text looks like. */
  lemma ScanRaw(node: Node, post: string, skipped: Option<string>, depth: int, voids: set<string>,
      quoted: (string, string) -> bool)
    requires node.Raw? && WellFormedNode(node, voids, quoted)
    requires skipped.Some? ==> skipped.value !in MATCHING_END_OPAQUE_ELEMENTS
    ensures Scan(RenderNode(node) + post, skipped, depth, quoted) ==
            (if skipped.None? then RenderNode(node) else "") + Scan(post, skipped, depth, quoted)
  {
    hide Opener, Lower, Scan, SelfCloses, Closer, RawEnd;
    var open, tag := OpenTag(node.open, node.attributes), CloseTag(node.close, node.space);
    var piece := open + node.content + tag;
    OpenTagIsRead(node.open, node.attributes, node.content + tag + post);
    CloseTagIsRead(node.open, node.close, node.space, post);
    RawIsRead(node.content, Lower(node.open), tag, post);
    assert piece + post == open + (node.content + tag + post);
    assert (piece + post)[|open|..] == node.content + tag + post;
    ScanPiece(piece, post, Take(piece + post, skipped, depth, quoted), skipped, depth, quoted);
  }

  // ---------------------------------------------------------------- the scanner prunes the tree

  predicate MayBeSkipped(name: string, voids: set<string>) {
    name !in voids && name != EOF_OPAQUE_ELEMENT && name !in MATCHING_END_OPAQUE_ELEMENTS
  }

  /** Inside a quoted element nothing is kept, and the depth is the same after any forest. */
  lemma {:induction false} ScanSkipped(forest: Forest, post: string, name: string, depth: int, voids: set<string>,
                                       quoted: (string, string) -> bool)
    requires WellFormed(forest, voids, quoted) && MayBeSkipped(name, voids) && depth >= 1
    ensures Scan(Render(forest) + post, Some(name), depth, quoted) == Scan(post, Some(name), depth, quoted)
    decreases forest
  {
    hide Scan, Lower, SelfCloses, Closer, ClosesNowhere, Balanced;
    match forest
    case Nil =>
      assert Render(forest) + post == post;
    case Cons(first, rest) =>
      var after := Render(rest) + post;
      assert Render(forest) + post == RenderNode(first) + after;
      ScanSkipped(rest, post, name, depth, voids, quoted);
      SkipNode(first, after, name, depth, voids, quoted);
  }

  lemma {:induction false} SkipNode(node: Node, post: string, name: string, depth: int, voids: set<string>,
      quoted: (string, string) -> bool)
    requires WellFormedNode(node, voids, quoted) && MayBeSkipped(name, voids) && depth >= 1
    ensures Scan(RenderNode(node) + post, Some(name), depth, quoted) == Scan(post, Some(name), depth, quoted)
    decreases node
  {
    hide Scan, Lower, SelfCloses, Closer, ClosesNowhere, Balanced;
    match node
    case Text(text) => ScanText(text, post, Some(name), depth, quoted);
    case Comment(text) => ScanComment(text, post, Some(name), depth, quoted);
    case SelfClosing(open, attributes) => ScanOpen(open, attributes, post, Some(name), depth, quoted);
    case Void(open, attributes) => ScanOpen(open, attributes, post, Some(name), depth, quoted);
    case Raw(_, _, _, _, _) => ScanRaw(node, post, Some(name), depth, voids, quoted);
    case Element(open, attributes, children, close, space) =>
      var tail := CloseTag(close, space) + post;
      var inner := if name == Lower(open) then depth + 1 else depth;
      assert RenderNode(node) + post == OpenTag(open, attributes) + (Render(children) + tail);
      ScanOpen(open, attributes, Render(children) + tail, Some(name), depth, quoted);
      ScanSkipped(children, tail, name, inner, voids, quoted);
      ScanClose(open, close, space, post, Some(name), inner, quoted);
  }

  /** Outside any quoted element, what is kept is the rendering of the pruned forest. */
  lemma {:induction false} ScanKept(forest: Forest, post: string, voids: set<string>, quoted: (string, string) -> bool)
    requires WellFormed(forest, voids, quoted)
    ensures Scan(Render(forest) + post, None, 0, quoted) == Render(Prune(forest, quoted)) + Scan(post, None, 0, quoted)
    decreases forest
  {
    hide Scan, Lower, SelfCloses, Closer, ClosesNowhere, Balanced;
    match forest
    case Nil =>
      assert Render(forest) + post == post;
    case Cons(first, rest) =>
      var after := Render(rest) + post;
      assert Render(forest) + post == RenderNode(first) + after;
      ScanKept(rest, post, voids, quoted);
      KeepNode(first, after, voids, quoted);
  }

  lemma {:induction false} KeepNode(node: Node, post: string, voids: set<string>, quoted: (string, string) -> bool)
    requires WellFormedNode(node, voids, quoted)
    ensures Scan(RenderNode(node) + post, None, 0, quoted) ==
            RenderLeft(PruneNode(node, quoted)) + Scan(post, None, 0, quoted)
    decreases node
  {
    hide Scan, Lower, SelfCloses, Closer, ClosesNowhere, Balanced;
    match node
    case Text(text) => ScanText(text, post, None, 0, quoted);
    case Comment(text) => ScanComment(text, post, None, 0, quoted);
    case SelfClosing(open, attributes) => ScanOpen(open, attributes, post, None, 0, quoted);
    case Void(open, attributes) => ScanOpen(open, attributes, post, None, 0, quoted);
    case Raw(_, _, _, _, _) => ScanRaw(node, post, None, 0, voids, quoted);
    case Element(_, _, _, _, _) => KeepElement(node, post, voids, quoted);
  }

  lemma {:induction false} KeepElement(node: Node, post: string, voids: set<string>, quoted: (string, string) -> bool)
    requires node.Element? && WellFormedNode(node, voids, quoted)
    ensures Scan(RenderNode(node) + post, None, 0, quoted) ==
            RenderLeft(PruneNode(node, quoted)) + Scan(post, None, 0, quoted)
    decreases node, 0
  {
    hide Scan, Lower, SelfCloses, Closer, ClosesNowhere, Balanced, OpenTag, CloseTag, IsName;
    var Element(open, attributes, children, close, space) := node;
    var opening, closing := OpenTag(open, attributes), CloseTag(close, space);
    var tail, after := closing + post, Scan(post, None, 0, quoted);
    Regroup(opening, Render(children), closing, post);
    ScanOpen(open, attributes, Render(children) + tail, None, 0, quoted);
    if quoted(Lower(open), attributes) {
      ScanSkipped(children, tail, Lower(open), 1, voids, quoted);
      ScanClose(open, close, space, post, Some(Lower(open)), 1, quoted);
      assert "" + after == after;
    } else {
      ScanKept(children, tail, voids, quoted);
      ScanClose(open, close, space, post, None, 0, quoted);
      Regroup(opening, Render(Prune(children, quoted)), closing, after);
    }
  }

  lemma Regroup(a: string, b: string, c: string, d: string)
    ensures a + b + c + d == a + (b + (c + d))
  {
  }

  // ---------------------------------------------------------------- the single pass

  lemma Suffix(html: string, start: nat, n: nat)
    requires start + n <= |html|
    ensures html[start..][n..] == html[start + n..] && html[start..][..n] == html[start..start + n]
  {
  }

  /** `strpos`: the first occurrence at or after an offset. */
  method Find(html: string, pattern: string, offset: nat) returns (at: Option<nat>)
    requires offset <= |html|
    ensures at.Some? ==> offset <= at.value && at.value <= |html| && pattern <= html[at.value..]
    ensures forall k :: offset <= k < (if at.Some? then at.value else |html|) ==> !(pattern <= html[k..])
  {
    var k := offset;
    while k < |html|
      invariant offset <= k <= |html|
      invariant forall j :: offset <= j < k ==> !(pattern <= html[j..])
    {
      if pattern <= html[k..] {
        return Some(k);
      }
      k := k + 1;
    }
    return if pattern == "" then Some(k) else None;
  }

  /** Where a pattern found by search ends. */
  lemma {:induction false} AfterFound(html: string, pattern: string, offset: nat, at: Option<nat>)
    requires offset <= |html| && pattern != ""
    requires at.Some? ==> offset <= at.value < |html| && pattern <= html[at.value..]
    requires forall k :: offset <= k < (if at.Some? then at.value else |html|) ==> !(pattern <= html[k..])
    ensures offset + After(html[offset..], pattern) == if at.Some? then at.value + |pattern| else |html|
    decreases |html| - offset
  {
    if offset < |html| && at != Some(offset) {
      assert !(pattern <= html[offset..]);
      AfterFound(html, pattern, offset + 1, at);
      assert html[offset..][1..] == html[offset + 1..];
    }
  }

  /** `closingTag` */
  method ClosingTag(html: string, start: nat) returns (c: Option<Closing>)
    requires start <= |html|
    ensures c == match Closer(html[start..])
                 case None => None
                 case Some(closing) => Some(Closing(closing.name, start + closing.end))
  {
    hide Span, Lower;
    Suffix(html, start, if start + 2 <= |html| then 2 else 0);
    if !("</" <= html[start..]) {
      return None;
    }
    var nameStart := start + 2;
    var nameLength := Span(html[nameStart..], IsAlphanumeric);
    if nameLength == 0 {
      return None;
    }
    var afterName := nameStart + nameLength;
    Suffix(html, start, 2 + nameLength);
    var end := afterName + Span(html[afterName..], IsSpace);
    if end >= |html| || html[end] != '>' {
      return None;
    }
    assert html[start..][2..2 + nameLength] == html[nameStart..afterName];
    return Some(Closing(Lower(html[nameStart..afterName]), end + 1));
  }

  /** The loop of `openingTag` over the attributes. */
  method AttributesEnd(html: string, start: nat, boundary: nat) returns (e: End)
    requires start <= boundary <= |html|
    ensures e == match TagEnd(html[start..], boundary - start, None, None)
                 case Closed(at) => Closed(start + at)
                 case Broken(at) => Broken(start + at)
  {
    ghost var s := html[start..];
    var quote: Option<char>, recovery: Option<nat> := None, None;
    var tagEnd := boundary;
    while tagEnd < |html|
      invariant boundary <= tagEnd <= |html|
      invariant recovery.Some? ==> boundary <= recovery.value <= |html|
      invariant TagEnd(s, boundary - start, None, None) ==
                TagEnd(s, tagEnd - start, quote, if recovery.Some? then Some(recovery.value - start) else None)
    {
      var character := html[tagEnd];
      assert s[tagEnd - start] == character;
      if quote.Some? {
        if character == quote.value {
          quote := None;
        } else if character == '<' && recovery.None? {
          recovery := Some(tagEnd);
        }
      } else if character == '"' || character == '\'' {
        quote := Some(character);
      } else if character == '<' {
        return Broken(if recovery.Some? then recovery.value else tagEnd);
      } else if character == '>' {
        return Closed(tagEnd);
      }
      tagEnd := tagEnd + 1;
    }
    return Broken(if recovery.Some? then recovery.value else |html|);
  }

  /** `openingTag` */
  method OpeningTag(html: string, start: nat) returns (t: Tag)
    requires start < |html| && html[start] == '<'
    ensures var tag := Opener(html[start..]); t == tag.(end := start + tag.end)
  {
    hide Span, Lower, SelfCloses, TagEnd;
    ghost var s := html[start..];
    var nameStart := start + 1;
    Suffix(html, start, 1);
    var nameLength := Span(html[nameStart..], IsAlphanumeric);
    if nameLength == 0 {
      return Malformed(start, start + 1);
    }
    var boundary := nameStart + nameLength;
    if boundary < |html| && !(html[boundary] == '/' || html[boundary] == '>' || IsSpace(html[boundary])) {
      return Malformed(start, start + 1);
    }
    var end := AttributesEnd(html, start, boundary);
    match end
    case Broken(at) => return Malformed(start, at);
    case Closed(tagEnd) =>
      assert s[boundary - start..tagEnd - start] == html[boundary..tagEnd];
      assert s[1..boundary - start] == html[nameStart..boundary];
      var attributes := html[boundary..tagEnd];
      return Tag(true, Lower(html[nameStart..boundary]), attributes, tagEnd + 1, SelfCloses(attributes));
  }

  /** The closing tag of a name is not at this position. */
  predicate NoCloser(s: string, name: string) {
    Closer(s).None? || Closer(s).value.name != name
  }

  lemma {:induction false} RawSkips(s: string, name: string, n: nat)
    requires n <= |s| && forall k :: 0 <= k < n ==> NoCloser(s[k..], name)
    ensures RawEnd(s, name) == n + RawEnd(s[n..], name)
    decreases n
  {
    hide Closer;
    if n == 0 {
      assert s[0..] == s;
    } else {
      assert s[0..] == s && s[1..][n - 1..] == s[n..];
      forall k | 0 <= k < n - 1 ensures NoCloser(s[1..][k..], name) {
        assert s[1..][k..] == s[k + 1..];
      }
      RawSkips(s[1..], name, n - 1);
    }
  }

  /** The text starts, in any case, with a lower-case pattern. */
  predicate StartsIgnoringCase(s: string, pattern: string) {
    |pattern| <= |s| && Lower(s[..|pattern|]) == pattern
  }

  lemma CloserStarts(s: string, name: string)
    requires !NoCloser(s, name)
    ensures StartsIgnoringCase(s, "</" + name)
  {
    hide Span;
    var pattern := "</" + name;
    assert s[..2] == "</";
    assert Lower(s[..|pattern|]) == pattern;
  }

  /** `stripos` */
  method FindIgnoringCase(html: string, pattern: string, offset: nat) returns (at: Option<nat>)
    requires offset <= |html| && pattern != ""
    ensures at.Some? ==> offset <= at.value < |html| && StartsIgnoringCase(html[at.value..], pattern)
    ensures forall k :: offset <= k < (if at.Some? then at.value else |html|) ==>
              !StartsIgnoringCase(html[k..], pattern)
  {
    var k := offset;
    while k < |html|
      invariant offset <= k <= |html|
      invariant forall j :: offset <= j < k ==> !StartsIgnoringCase(html[j..], pattern)
    {
      if StartsIgnoringCase(html[k..], pattern) {
        return Some(k);
      }
      k := k + 1;
    }
    return None;
  }

  predicate IsLowerName(name: string) {
    forall i :: 0 <= i < |name| ==> 'a' <= name[i] <= 'z'
  }

  /** Nothing starts inside the name of a candidate. */
  lemma NothingInside(s: string, name: string, k: nat)
    requires IsLowerName(name) && StartsIgnoringCase(s, "</" + name) && 0 < k < 2 + |name|
    ensures NoCloser(s[k..], name)
  {
    var pattern := "</" + name;
    assert LowerChar(s[k]) == Lower(s[..|pattern|])[k] == pattern[k];
  }

  /** A position before a candidate, or inside one that is not the closing tag. */
  lemma NothingAt(html: string, name: string, at: nat, through: bool, k: nat)
    requires k < |html| && at <= |html| && k < at + 2 + |name| && (through ==> at < |html|) && IsLowerName(name)
    requires k < at ==> !StartsIgnoringCase(html[k..], "</" + name)
    requires k >= at ==> through && StartsIgnoringCase(html[at..], "</" + name) && NoCloser(html[at..], name)
    ensures NoCloser(html[k..], name)
  {
    hide Closer, StartsIgnoringCase, NoCloser;
    if k < at {
      if !NoCloser(html[k..], name) {
        CloserStarts(html[k..], name);
      }
    } else if k > at {
      Starts(html[at..], "</" + name);
      NothingInside(html[at..], name, k - at);
      assert html[at..][k - at..] == html[k..];
    }
  }

  /** Up to a candidate, or through one that is not the closing tag, there is nothing. */
  lemma CandidateSkips(html: string, offset: nat, name: string, at: nat, through: bool)
    requires offset <= at <= |html| && IsLowerName(name)
    requires forall k :: offset <= k < at ==> !StartsIgnoringCase(html[k..], "</" + name)
    requires through ==> at < |html| && StartsIgnoringCase(html[at..], "</" + name) && NoCloser(html[at..], name)
    ensures var next := if through then at + 2 + |name| else at;
            next <= |html| && offset + RawEnd(html[offset..], name) == next + RawEnd(html[next..], name)
  {
    hide Closer, StartsIgnoringCase, NoCloser, RawEnd;
    if through {
      Starts(html[at..], "</" + name);
    }
    var next := if through then at + 2 + |name| else at;
    var s := html[offset..];
    forall k | 0 <= k < next - offset ensures NoCloser(s[k..], name) {
      assert s[k..] == html[offset + k..];
      NothingAt(html, name, at, through, offset + k);
    }
    RawSkips(s, name, next - offset);
    assert s[next - offset..] == html[next..];
  }

  lemma Starts(s: string, pattern: string)
    requires StartsIgnoringCase(s, pattern)
    ensures |pattern| <= |s|
  {
  }

  /** `rawTextElementEnd` */
  method RawTextElementEnd(html: string, start: nat, name: string) returns (end: nat)
    requires start <= |html| && IsLowerName(name)
    ensures end == start + RawEnd(html[start..], name)
  {
    hide Closer, StartsIgnoringCase;
    var offset := start;
    while true
      invariant start <= offset <= |html|
      invariant start + RawEnd(html[start..], name) == offset + RawEnd(html[offset..], name)
      decreases |html| - offset
    {
      var candidate := FindIgnoringCase(html, "</" + name, offset);
      CandidateSkips(html, offset, name, if candidate.Some? then candidate.value else |html|, false);
      if candidate.None? {
        return |html|;
      }
      var closing := ClosingTag(html, candidate.value);
      if closing.Some? && closing.value.name == name {
        return closing.value.end;
      }
      CandidateSkips(html, candidate.value, name, candidate.value, true);
      offset := candidate.value + 2 + |name|;
    }
  }

  lemma OpaqueNamesAreLower(name: string)
    requires name in MATCHING_END_OPAQUE_ELEMENTS
    ensures IsLowerName(name)
  {
  }

  /** `opaqueElementEnd` */
  method OpaqueElementEnd(html: string, start: nat, tag: Tag) returns (end: nat)
    requires start < |html| && html[start] == '<' && tag.end <= |html| && start <= tag.end
    ensures end == start + OpaqueEnd(html[start..], tag.(end := tag.end - start))
  {
    hide Closer, RawEnd;
    if tag.name == EOF_OPAQUE_ELEMENT {
      return |html|;
    }
    if tag.name in MATCHING_END_OPAQUE_ELEMENTS {
      OpaqueNamesAreLower(tag.name);
      assert html[start..][tag.end - start..] == html[tag.end..];
      end := RawTextElementEnd(html, tag.end, tag.name);
      return;
    }
    return tag.end;
  }

  /** Which characters of a text a result consists of. */
  ghost predicate Picks(html: string, result: string, picks: seq<nat>, below: nat) {
    && |picks| == |result|
    && (forall k :: 0 <= k < |picks| ==> picks[k] < below && picks[k] < |html| && result[k] == html[picks[k]])
    && (forall k, l :: 0 <= k < l < |picks| ==> picks[k] < picks[l])
  }

  /** Some of the characters of a text, in order. */
  ghost predicate IsSubsequence(html: string, result: string) {
    exists picks :: Picks(html, result, picks, |html|)
  }

  /** A further character of the text may be kept. */
  lemma PickOne(html: string, result: string, picks: seq<nat>, offset: nat)
    requires Picks(html, result, picks, offset) && offset < |html|
    ensures Picks(html, result + [html[offset]], picks + [offset], offset + 1)
  {
    var next, more := result + [html[offset]], picks + [offset];
    forall k | 0 <= k < |more| ensures more[k] < offset + 1 && next[k] == html[more[k]] {
      assert k < |picks| ==> next[k] == result[k] && more[k] == picks[k];
    }
  }

  /** A piece of the text may be kept or not. */
  lemma {:induction false} PickPiece(html: string, result: string, picks: seq<nat>, offset: nat, n: nat, keep: bool)
    returns (more: seq<nat>)
    requires Picks(html, result, picks, offset) && offset + n <= |html|
    ensures Picks(html, result + (if keep then html[offset..offset + n] else ""), more, offset + n)
    decreases n
  {
    if keep && n > 0 {
      hide Picks;
      PickOne(html, result, picks, offset);
      more := PickPiece(html, result + [html[offset]], picks + [offset], offset + 1, n - 1, keep);
      assert result + [html[offset]] + html[offset + 1..offset + n] == result + html[offset..offset + n];
    } else {
      more := picks;
      assert keep ==> html[offset..offset + n] == "";
      assert result + "" == result;
    }
  }

  /** One turn of the scanner's loop, at an offset. */
  method TakeAt(html: string, offset: nat, skipped: Option<string>, depth: int, quoted: (string, string) -> bool)
    returns (step: Step)
    requires offset < |html|
    ensures step == Take(html[offset..], skipped, depth, quoted)
  {
    hide Closer, Opener, OpaqueEnd, After, Span;
    ghost var s := html[offset..];
    assert s[0] == html[offset];
    if html[offset] != '<' {
      var end := offset + Span(html[offset..], NotTag);
      return Step(end - offset, skipped.None?, skipped, depth);
    }
    if "<!--" <= html[offset..] {
      Suffix(html, offset, 4);
      var commentEnd := Find(html, "-->", offset + 4);
      AfterFound(html, "-->", offset + 4, commentEnd);
      var end := if commentEnd.Some? then commentEnd.value + 3 else |html|;
      return Step(end - offset, skipped.None?, skipped, depth);
    }
    var closing := ClosingTag(html, offset);
    if closing.Some? {
      var n := closing.value.end - offset;
      if skipped.Some? && closing.value.name == skipped.value {
        return Step(n, false, if depth - 1 == 0 then None else skipped, depth - 1);
      }
      return Step(n, skipped.None?, skipped, depth);
    }
    var tag := OpeningTag(html, offset);
    if !tag.valid {
      return Step(tag.end - offset, skipped.None?, skipped, depth);
    }
    if skipped.Some? {
      var end := OpaqueElementEnd(html, offset, tag);
      var deeper := tag.name == skipped.value && !tag.selfClosing;
      return Step(end - offset, false, skipped, if deeper then depth + 1 else depth);
    }
    if quoted(tag.name, tag.attributes) {
      return if tag.selfClosing then Step(tag.end - offset, false, None, depth)
        else Step(tag.end - offset, false, Some(tag.name), 1);
    }
    var end := OpaqueElementEnd(html, offset, tag);
    return Step(end - offset, true, None, depth);
  }

  /**
   `html`: on every text the pass comes to its end and leaves some of the text's characters, in order.  What it
   leaves is what the scanner function says.
   */
  method Html(html: string, quoted: (string, string) -> bool) returns (result: string)
    ensures result == Scan(html, None, 0, quoted)
    ensures IsSubsequence(html, result)
  {
    hide Take, Closer, Opener, Span, After, OpaqueEnd, Malformed;
    result := "";
    var offset: nat := 0;
    var skippedName: Option<string>, skippedDepth := None, 0;
    ghost var picks: seq<nat> := [];
    assert html[0..] == html;
    while offset < |html|
      invariant offset <= |html|
      invariant result + Scan(html[offset..], skippedName, skippedDepth, quoted) == Scan(html, None, 0, quoted)
      invariant Picks(html, result, picks, offset)
    {
      var step := TakeAt(html, offset, skippedName, skippedDepth, quoted);
      Suffix(html, offset, step.n);
      picks := PickPiece(html, result, picks, offset, step.n, step.keep);
      if step.keep {
        result := result + html[offset..offset + step.n];
      }
      offset, skippedName, skippedDepth := offset + step.n, step.skipped, step.depth;
    }
  }

  /** On the rendering of a tree the pass leaves exactly the rendering of the tree without its quoted elements. */
  lemma HtmlOfTree(forest: Forest, voids: set<string>, quoted: (string, string) -> bool)
    requires WellFormed(forest, voids, quoted)
    ensures Scan(Render(forest), None, 0, quoted) == Render(Prune(forest, quoted))
  {
    ScanKept(forest, "", voids, quoted);
    assert Render(forest) + "" == Render(forest);
  }
}
