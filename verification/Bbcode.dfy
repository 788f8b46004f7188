/** The markup renderer of bbcode.c: a cursor over a C string, a stack of open tags, and
    output that must nest properly whatever the input says. */
module Bbcode {
  import opened Chains

  /** `TAGS`, and the tag `>` of a quoted line. */
  datatype Tag = Bold | Italic | Underlined | Struck | Spoiler | Code | Inline | Quote

  const NAMED := [Bold, Italic, Underlined, Struck, Spoiler, Code, Inline]

  function Name(t: Tag): string {
    match t
    case Bold => "b" case Italic => "i" case Underlined => "u" case Struck => "s"
    case Spoiler => "spoiler" case Code => "code" case Inline => "q" case Quote => ">"
  }

  /** What is written: element tags, escaped text, `<br>`, the mark of a quoted line, a link to a post. */
  datatype Event = Open(tag: Tag) | Close(tag: Tag) | Text(text: string) | Break | Mark | Link(post: nat, text: string)

  // ---- Nesting ----

  /** The open elements after one event; None when the event does not fit. A code block opens only at
      top level, and holds nothing but text. */
  function Step(open: seq<Tag>, e: Event): Option<seq<Tag>> {
    var n := |open|;
    var inCode := n > 0 && open[n - 1] == Code;
    match e
    case Open(t) => if inCode || (t == Code && n > 0) then None else Some(open + [t])
    case Close(t) => if n > 0 && open[n - 1] == t then Some(open[..n - 1]) else None
    case Text(_) => Some(open)
    case _ => if inCode then None else Some(open)
  }

  /** The open elements after all events. */
  function Run(out: seq<Event>): Option<seq<Tag>> {
    if |out| == 0 then Some([])
    else
      match Run(out[..|out| - 1])
      case None => None
      case Some(open) => Step(open, out[|out| - 1])
  }

  lemma RunOne(out: seq<Event>, e: Event)
    requires Run(out).Some?
    ensures Run(out + [e]) == Step(Run(out).value, e)
  {
    assert (out + [e])[..|out|] == out;
  }

  function ShownEvent(e: Event): string {
    if e.Text? || e.Link? then e.text else if e.Break? then "\n" else ""
  }

  /** What a reader sees: the text of every event, a line end for every break. */
  function Shown(out: seq<Event>): string {
    if |out| == 0 then ""
    else
      Shown(out[..|out| - 1]) + ShownEvent(out[|out| - 1])
  }

  lemma {:induction false} ShownJoin(a: seq<Event>, b: seq<Event>)
    ensures Shown(a + b) == Shown(a) + Shown(b)
  {
    hide ShownEvent;
    if |b| == 0 {
      assert a + b == a;
    } else {
      assert (a + b)[..|a + b| - 1] == a + b[..|b| - 1];
      ShownJoin(a, b[..|b| - 1]);
    }
  }

  lemma ShownOne(e: Event)
    ensures Shown([e]) == ShownEvent(e)
  {
    assert [e][..0] == [];
  }

  /** Closing these elements, the last first. */
  function Closes(open: seq<Tag>): seq<Event> {
    if |open| == 0 then [] else [Close(open[|open| - 1])] + Closes(open[..|open| - 1])
  }

  /** Opening these elements, the first first. */
  function Opens(tags: seq<Tag>): seq<Event> {
    if |tags| == 0 then [] else Opens(tags[..|tags| - 1]) + [Open(tags[|tags| - 1])]
  }

  /** A code block is open alone or not at all. */
  ghost predicate CodeAlone(open: seq<Tag>) {
    Code in open ==> open == [Code]
  }

  // ---- Scanners ----

  /** The character at i of a C string. */
  function At(s: string, i: nat): char {
    if i < |s| then s[i] else '\0'
  }

  predicate Space(c: char) {
    c == ' ' || '\t' <= c <= '\r'
  }

  predicate Digit(c: char) { '0' <= c <= '9' }

  function Lower(c: char): char {
    if 'A' <= c <= 'Z' then (c as int + 32) as char else c
  }

  /** The name of the tag stands at i, in any case, and the word ends there. */
  predicate NamedAt(s: string, i: nat, t: Tag) {
    var n := |Name(t)|;
    && (forall k :: 0 <= k < n ==> Lower(At(s, i + k)) == Name(t)[k])
    && (Space(At(s, i + n)) || At(s, i + n) == ']')
  }

  ghost predicate Spaces(s: string, a: nat, b: nat) {
    a <= b && forall k :: a <= k < b ==> Space(At(s, k))
  }

  /** `[`, spaces, a slash if closing, spaces, a tag's name, spaces, `]`: from i to before e. */
  ghost predicate TagForm(s: string, i: nat, a: nat, b: nat, c: nat, e: nat, t: Tag, open: bool) {
    && At(s, i) == '[' && Spaces(s, i + 1, a)
    && (if open then b == a else At(s, a) == '/' && Spaces(s, a + 1, b))
    && t != Quote && NamedAt(s, b, t)
    && Spaces(s, b + |Name(t)|, c) && At(s, c) == ']' && e == c + 1
  }

  /** Some such text runs from i to before e. */
  ghost predicate TagAt(s: string, i: nat, e: nat, t: Tag, open: bool) {
    exists a, b, c :: TagForm(s, i, a, b, c, e, t, open)
  }

  /** `scan_whiteskip` */
  method SkipSpace(s: string, i: nat) returns (j: nat)
    ensures Spaces(s, i, j) && !Space(At(s, j))
    ensures j <= |s| || j == i
  {
    j := i;
    while Space(At(s, j))
      invariant Spaces(s, i, j) && (j <= |s| || j == i)
      decreases |s| - j
    {
      j := j + 1;
    }
  }

  lemma LetterAt(s: string, i: nat, t: Tag, k: nat)
    requires NamedAt(s, i, t) && t != Quote
    ensures k < |Name(t)| ==> !Space(At(s, i + k)) && At(s, i + k) != ']'
  {
    if k < |Name(t)| { assert Lower(At(s, i + k)) == Name(t)[k]; }
  }

  /** Two names cannot stand at the same place. */
  lemma OneName(s: string, i: nat, t: Tag, u: Tag)
    requires NamedAt(s, i, t) && NamedAt(s, i, u) && t != Quote && u != Quote
    ensures t == u
  {
    LetterAt(s, i, t, |Name(u)|);
    LetterAt(s, i, u, |Name(t)|);
    assert Lower(At(s, i + 0)) == Name(t)[0] == Name(u)[0];
  }

  lemma SpacesEnd(s: string, i: nat, j: nat, k: nat)
    requires Spaces(s, i, j) && !Space(At(s, j)) && Spaces(s, i, k) && !Space(At(s, k))
    ensures j == k
  {
  }

  lemma NameStart(s: string, i: nat, t: Tag)
    requires NamedAt(s, i, t) && t != Quote
    ensures !Space(At(s, i)) && At(s, i) != '/' && i + |Name(t)| < |s|
  {
    assert Lower(At(s, i + 0)) == Name(t)[0];
  }

  /** `scan_tag`: the length of the tag's text, 0 if there is none; it misses no tag and misreads none. */
  method ScanTag(s: string, i: nat) returns (n: nat, tag: Tag, open: bool)
    requires i < |s| && '\0' !in s
    ensures n > 0 ==> i + n <= |s| && n >= 3 && tag != Quote
    ensures forall e, t, o :: TagAt(s, i, e, t, o) <==> n > 0 && e == i + n && t == tag && o == open
  {
    hide NamedAt, Spaces;
    n, tag, open := 0, Bold, true;
    if s[i] != '[' { return; }
    var a := SkipSpace(s, i + 1);
    open := At(s, a) != '/';
    var b := a;
    if !open {
      b := SkipSpace(s, a + 1);
    }
    var k := 0;
    while k < |NAMED| && !NamedAt(s, b, NAMED[k])
      invariant 0 <= k <= |NAMED|
      invariant forall q :: 0 <= q < k ==> !NamedAt(s, b, NAMED[q])
    {
      k := k + 1;
    }
    if k == |NAMED| {
      NoTag(s, i, a, b, open);
      return;
    }
    tag := NAMED[k];
    NameStart(s, b, tag);
    var c := SkipSpace(s, b + |Name(tag)|);
    OnlyTag(s, i, a, b, c, tag, open);
    if At(s, c) != ']' { return; }
    n := c + 1 - i;
    Lengths(s, i, a, b, c, tag);
    assert TagForm(s, i, a, b, c, i + n, tag, open);
  }

  lemma Lengths(s: string, i: nat, a: nat, b: nat, c: nat, t: Tag)
    requires At(s, c) == ']' && Spaces(s, i + 1, a) && a <= b && Spaces(s, b + |Name(t)|, c)
    ensures i + 3 <= c + 1 <= |s|
  {
  }

  lemma Listed(t: Tag)
    requires t != Quote
    ensures t in NAMED
  {
    match t
    case Bold => assert NAMED[0] == t;
    case Italic => assert NAMED[1] == t;
    case Underlined => assert NAMED[2] == t;
    case Struck => assert NAMED[3] == t;
    case Spoiler => assert NAMED[4] == t;
    case Code => assert NAMED[5] == t;
    case Inline => assert NAMED[6] == t;
  }

  /** Every tag at i has its name where the scanner looks for it. */
  lemma NamePlace(s: string, i: nat, a: nat, b: nat, open: bool, a2: nat, b2: nat, c2: nat, e: nat, t: Tag, o: bool)
    requires Spaces(s, i + 1, a) && !Space(At(s, a)) && (open <==> At(s, a) != '/')
    requires if open then b == a else Spaces(s, a + 1, b) && !Space(At(s, b))
    requires TagForm(s, i, a2, b2, c2, e, t, o)
    ensures a2 == a && b2 == b && o == open
  {
    NameStart(s, b2, t);
    SpacesEnd(s, i + 1, a, a2);
    if !o { SpacesEnd(s, a + 1, b, b2); }
  }

  lemma NoTag(s: string, i: nat, a: nat, b: nat, open: bool)
    requires Spaces(s, i + 1, a) && !Space(At(s, a)) && (open <==> At(s, a) != '/')
    requires if open then b == a else Spaces(s, a + 1, b) && !Space(At(s, b))
    requires forall k :: 0 <= k < |NAMED| ==> !NamedAt(s, b, NAMED[k])
    ensures forall e, t, o :: !TagAt(s, i, e, t, o)
  {
    hide NamedAt, Spaces;
    forall e, t, o, a2, b2, c2 ensures !TagForm(s, i, a2, b2, c2, e, t, o) {
      if TagForm(s, i, a2, b2, c2, e, t, o) {
        NamePlace(s, i, a, b, open, a2, b2, c2, e, t, o);
        Listed(t);
      }
    }
  }

  lemma OnlyTag(s: string, i: nat, a: nat, b: nat, c: nat, tag: Tag, open: bool)
    requires Spaces(s, i + 1, a) && !Space(At(s, a)) && (open <==> At(s, a) != '/')
    requires if open then b == a else Spaces(s, a + 1, b) && !Space(At(s, b))
    requires NamedAt(s, b, tag) && tag != Quote && Spaces(s, b + |Name(tag)|, c) && !Space(At(s, c))
    ensures forall e, t, o :: TagAt(s, i, e, t, o) ==> At(s, c) == ']' && e == c + 1 && t == tag && o == open
  {
    hide NamedAt, Spaces;
    forall e, t, o, a2, b2, c2 | TagForm(s, i, a2, b2, c2, e, t, o)
      ensures At(s, c) == ']' && e == c + 1 && t == tag && o == open
    {
      NamePlace(s, i, a, b, open, a2, b2, c2, e, t, o);
      OneName(s, b, t, tag);
      Closing(s, c2);
      SpacesEnd(s, b + |Name(tag)|, c, c2);
    }
  }

  lemma Closing(s: string, c: nat)
    requires At(s, c) == ']'
    ensures !Space(At(s, c))
  {
  }

  /** The value of the n digits at i. */
  function Number(s: string, i: nat, n: nat): int {
    if n == 0 then 0 else 10 * Number(s, i, n - 1) + (At(s, i + n - 1) as int - '0' as int)
  }

  lemma {:induction false} NumberInSlice(s: string, i: nat, n: nat, from: nat, to: nat)
    requires from <= i && i + n <= to <= |s|
    ensures Number(s[from..to], i - from, n) == Number(s, i, n)
  {
    if n > 0 { NumberInSlice(s, i, n - 1, from, to); }
  }

  lemma {:induction false} NumberGrows(s: string, i: nat, m: nat, n: nat)
    requires m <= n && forall k :: i <= k < i + n ==> Digit(At(s, k))
    ensures 0 <= Number(s, i, m) <= Number(s, i, n)
  {
    if m < n {
      NumberGrows(s, i, m, n - 1);
    } else if m > 0 {
      NumberGrows(s, i, m - 1, m - 1);
    }
  }

  predicate ReferenceAt(s: string, i: nat) {
    At(s, i) == '>' && At(s, i + 1) == '>' && Digit(At(s, i + 2))
  }

  /** `>>` and the digits of this number. */
  ghost predicate Refers(t: string, post: nat) {
    |t| > 2 && t[..2] == ">>" && (forall k :: 2 <= k < |t| ==> Digit(t[k])) && Number(t, 2, |t| - 2) == post
  }

  /** Two marks at i, and digits up to e: as many as make a 64-bit number. */
  ghost predicate ReferenceTo(s: string, i: nat, e: nat) {
    && i + 2 < e <= |s| && s[i] == '>' && s[i + 1] == '>'
    && (forall k :: i + 2 <= k < e ==> Digit(At(s, k)))
    && Number(s, i + 2, e - i - 2) < WORD
    && (Digit(At(s, e)) ==> Number(s, i + 2, e - i - 1) >= WORD)
  }

  const WORD := 0x1_0000_0000_0000_0000

  lemma OneReference(s: string, i: nat, e: nat, f: nat)
    requires ReferenceTo(s, i, e) && ReferenceTo(s, i, f)
    ensures e == f
  {
    if e < f { NumberGrows(s, i + 2, e - i - 1, f - i - 2); }
    if f < e { NumberGrows(s, i + 2, f - i - 1, e - i - 2); }
  }

  lemma ReferenceText(s: string, i: nat, d: nat)
    requires d > 0 && i + 2 + d <= |s| && s[i] == '>' && s[i + 1] == '>'
    requires forall k :: i + 2 <= k < i + 2 + d ==> Digit(At(s, k))
    requires Number(s, i + 2, d) >= 0
    ensures Refers(s[i..i + 2 + d], Number(s, i + 2, d))
  {
    var t := s[i..i + 2 + d];
    forall k | 2 <= k < |t| ensures Digit(t[k]) { assert t[k] == At(s, i + k); }
    NumberInSlice(s, i + 2, d, i, i + 2 + d);
    assert t[..2] == ">>";
  }

  /** `scan_reference`, with the digits as far as they make a 64-bit number. */
  method ScanReference(s: string, i: nat) returns (n: nat, post: nat)
    requires i < |s|
    ensures n > 0 <==> ReferenceAt(s, i)
    ensures n > 0 ==> ReferenceTo(s, i, i + n) && post == Number(s, i + 2, n - 2) && Refers(s[i..i + n], post)
  {
    n, post := 0, 0;
    if At(s, i) != '>' || At(s, i + 1) != '>' { return; }
    var d := 0;
    while Digit(At(s, i + 2 + d)) &&
          (d == 0 || 10 * post + (At(s, i + 2 + d) as int - '0' as int) < WORD)
      invariant post == Number(s, i + 2, d) < WORD
      invariant d > 0 ==> i + 2 + d <= |s|
      invariant forall k :: i + 2 <= k < i + 2 + d ==> Digit(At(s, k))
      decreases |s| - d
    {
      post := 10 * post + (At(s, i + 2 + d) as int - '0' as int);
      d := d + 1;
    }
    if d > 0 {
      n := 2 + d;
      ReferenceText(s, i, d);
    }
  }

  /** How many `>` stand between a and b. */
  function Marks(s: string, a: nat, b: nat): (n: nat)
    requires a <= b
    ensures n <= b - a
  {
    if a == b then 0 else Marks(s, a, b - 1) + if At(s, b - 1) == '>' then 1 else 0
  }

  /** A place in the quote marks that start a line: a blank or a `>` that is no reference. */
  predicate InPrefix(s: string, k: nat) {
    if At(s, k) == '>' then !ReferenceAt(s, k) else Space(At(s, k)) && At(s, k) != '\n'
  }

  ghost predicate PrefixAt(s: string, from: nat, to: nat) {
    from < to && (forall k :: from <= k < to ==> InPrefix(s, k)) && Marks(s, from, to) > 0 && !InPrefix(s, to)
  }

  lemma PrefixEnd(s: string, i: nat, e: nat, f: nat)
    requires PrefixAt(s, i, e) && i <= f && !InPrefix(s, f) && forall k :: i <= k < f ==> InPrefix(s, k)
    ensures e == f
  {
  }

  /** `scan_quote`: the quote marks at the start of a line and how many there are. */
  method ScanQuote(s: string, i: nat) returns (n: nat, depth: nat)
    requires i < |s|
    ensures depth <= n && i + n <= |s| && (n > 0 <==> depth > 0)
    ensures n > 0 ==> PrefixAt(s, i, i + n) && depth == Marks(s, i, i + n)
    ensures n == 0 ==> forall e :: !PrefixAt(s, i, e)
  {
    n, depth := 0, 0;
    while InPrefix(s, i + n)
      invariant i + n <= |s|
      invariant forall k :: i <= k < i + n ==> InPrefix(s, k)
      invariant depth == Marks(s, i, i + n)
      decreases |s| - n
    {
      if At(s, i + n) == '>' { depth := depth + 1; }
      n := n + 1;
    }
    forall e: nat | PrefixAt(s, i, e) ensures e == i + n { PrefixEnd(s, i, e, i + n); }
    if depth == 0 { n := 0; }
  }

  // ---- The grammar by example ----

  lemma PrefixExamples()
    ensures PrefixAt("> > x", 0, 4) && Marks("> > x", 0, 4) == 2
    ensures PrefixAt("> >>1", 0, 2) && Marks("> >>1", 0, 2) == 1
    ensures PrefixAt(">\n>", 0, 1)
    ensures forall e :: !PrefixAt(">>1 x", 0, e) && !PrefixAt("  x", 0, e)
  {
    assert Marks("> > x", 0, 1) == 1 && Marks("> > x", 0, 2) == 1 && Marks("> > x", 0, 3) == 2;
    assert Marks("> >>1", 0, 1) == 1;
    assert Marks(">\n>", 0, 0) == 0;
    assert !InPrefix(">>1 x", 0) && !InPrefix("  x", 2);
    forall e: nat ensures !PrefixAt("  x", 0, e) {
      assert Marks("  x", 0, 0) == 0 && Marks("  x", 0, 1) == 0 && Marks("  x", 0, 2) == 0;
      if e > 2 { assert !InPrefix("  x", 2); }
    }
  }

  /** A tag's name in brackets, in whatever case, with blanks and a slash where they may stand. */
  lemma TagExamples()
    ensures TagAt("[b]", 0, 3, Bold, true) && TagAt("[i]", 0, 3, Italic, true)
    ensures TagAt("[u]", 0, 3, Underlined, true) && TagAt("[s]", 0, 3, Struck, true)
  {
    assert TagForm("[b]", 0, 1, 1, 2, 3, Bold, true) && TagForm("[i]", 0, 1, 1, 2, 3, Italic, true);
    assert TagForm("[u]", 0, 1, 1, 2, 3, Underlined, true) && TagForm("[s]", 0, 1, 1, 2, 3, Struck, true);
  }

  lemma LongTagExamples()
    ensures TagAt("[q]", 0, 3, Inline, true) && TagAt("[ / CODE ]", 0, 10, Code, false)
    ensures TagAt("[spoiler]", 0, 9, Spoiler, true)
  {
    assert TagForm("[q]", 0, 1, 1, 2, 3, Inline, true);
    assert TagForm("[ / CODE ]", 0, 2, 4, 9, 10, Code, false);
    assert TagForm("[spoiler]", 0, 1, 1, 8, 9, Spoiler, true);
  }

  // ---- What becomes of the input ----

  /** The tag whose text stands at i. */
  datatype Markup = Markup(tag: Tag, open: bool, end: nat)

  ghost function MarkupAt(s: string, i: nat): (m: Option<Markup>)
    ensures m.Some? ==> m.value.end > i && TagAt(s, i, m.value.end, m.value.tag, m.value.open)
    ensures m.None? ==> forall e, t, o :: !TagAt(s, i, e, t, o)
  {
    if exists e, t, o :: TagAt(s, i, e, t, o) then
      var e, t, o :| TagAt(s, i, e, t, o);
      Some(Markup(t, o, e))
    else None
  }

  /** The tag at i that is obeyed: in a code block only the one that ends it. */
  ghost function ObeyedAt(s: string, i: nat, code: bool): (m: Option<Markup>)
    ensures m.Some? ==> m.value.end > i
  {
    var m := MarkupAt(s, i);
    if m.Some? && code && !(m.value.tag == Code && !m.value.open) then None else m
  }

  /** Where the quote marks of a line that starts at i end. */
  ghost function PrefixEndAt(s: string, i: nat): (e: nat)
    ensures e >= i
  {
    if exists e: nat :: PrefixAt(s, i, e) then var e: nat :| PrefixAt(s, i, e); e else i
  }

  /** Where the reference at i ends. */
  ghost function ReferenceEnd(s: string, i: nat): (e: nat)
    ensures e >= i && (e > i ==> ReferenceTo(s, i, e))
  {
    if exists e: nat :: ReferenceTo(s, i, e) then var e: nat :| ReferenceTo(s, i, e); e else i
  }

  predicate Special(c: char) {
    c == '\0' || c == '\r' || c == '\n' || c == '[' || c == '>'
  }

  /** Where the text from i on meets the next character that may mean something. */
  function TextEnd(s: string, i: nat): (e: nat)
    requires i <= |s|
    ensures i <= e <= |s| && forall k :: i <= k < e ==> !Special(s[k])
    decreases |s| - i
  {
    if i == |s| || Special(s[i]) then i else TextEnd(s, i + 1)
  }

  /** What a reader is to see of s from i on, one character at a time: everything but carriage returns, the quote
      marks at the start of a line, and the tags that are obeyed. Nothing else of the markup plays a part. */
  ghost function Visible(s: string, i: nat, newline: bool, code: bool): string
    decreases if i < |s| then |s| - i else 0, newline
  {
    if i >= |s| then ""
    else if newline then Visible(s, PrefixEndAt(s, i), false, code)
    else if s[i] == '\r' then Visible(s, i + 1, false, code)
    else if s[i] == '\n' then "\n" + Visible(s, i + 1, !code, code)
    else if s[i] == '[' && ObeyedAt(s, i, code).Some? then
      var m := ObeyedAt(s, i, code).value;
      Visible(s, m.end, m.tag == Code && !m.open && code, if m.tag == Code then m.open else code)
    else [s[i]] + Visible(s, i + 1, false, code)
  }

  ghost predicate Linked(posts: set<nat>, out: seq<Event>) {
    forall i :: 0 <= i < |out| && out[i].Link? ==> out[i].post in posts && Refers(out[i].text, out[i].post)
  }

  /** Where a tag was opened last. */
  function LastOf(open: seq<Tag>, t: Tag): (i: nat)
    requires t in open
    ensures i < |open| && open[i] == t && forall j :: i < j < |open| ==> open[j] != t
  {
    if open[|open| - 1] == t then |open| - 1 else LastOf(open[..|open| - 1], t)
  }

  /** The open elements after a tag has been obeyed. */
  function StackAfter(open: seq<Tag>, t: Tag, opening: bool): seq<Tag> {
    if opening then if t == Code then [Code] else open + [t]
    else if t in open then var i := LastOf(open, t); open[..i] + open[i + 1..]
    else open
  }

  /** What obeying a tag writes. */
  function EventsOf(open: seq<Tag>, t: Tag, opening: bool): seq<Event> {
    if opening then (if t == Code then Closes(open) else []) + [Open(t)]
    else if t in open then var i := LastOf(open, t); Closes(open[i..]) + Opens(open[i + 1..])
    else []
  }

  lemma {:induction false} ClosesMore(t: Tag, open: seq<Tag>)
    ensures Closes([t] + open) == Closes(open) + [Close(t)]
  {
    var all := [t] + open;
    if |open| == 0 {
      assert all[..0] == [];
    } else {
      assert all[..|all| - 1] == [t] + open[..|open| - 1];
      ClosesMore(t, open[..|open| - 1]);
    }
  }

  /** The open elements after n quotes have been closed, as far as there are any. */
  function QuotesClosed(open: seq<Tag>, n: nat): seq<Tag> {
    if n == 0 then open else StackAfter(QuotesClosed(open, n - 1), Quote, false)
  }

  function QuoteCloses(open: seq<Tag>, n: nat): seq<Event> {
    if n == 0 then [] else QuoteCloses(open, n - 1) + EventsOf(QuotesClosed(open, n - 1), Quote, false)
  }

  function Less(a: nat, b: nat): nat {
    if a > b then a - b else 0
  }

  /** The open elements when a line of one depth follows one of another. */
  function Requoted(open: seq<Tag>, before: nat, depth: nat): seq<Tag> {
    QuotesClosed(open, Less(before, depth)) + seq(Less(depth, before), _ => Quote)
  }

  /** What is written then: quotes end or begin, and the line gets its marks. */
  function RequoteEvents(open: seq<Tag>, before: nat, depth: nat): seq<Event> {
    QuoteCloses(open, Less(before, depth)) + seq(Less(depth, before), _ => Open(Quote)) + seq(depth, _ => Mark)
  }

  /** Where the renderer is: the place in the input, whether a line starts there, whether a code block is open, the
      depth of the line and the open elements. */
  datatype Cursor = Cursor(pos: nat, newline: bool, code: bool, depth: nat, open: seq<Tag>)

  datatype Stride = Stride(events: seq<Event>, next: Cursor)

  function ReferenceEvent(posts: set<nat>, post: nat, text: string): Event {
    if post in posts then Link(post, text) else Text(text)
  }

  /** What the renderer writes next and where that takes it. */
  ghost function StrideAt(s: string, posts: set<nat>, c: Cursor): (r: Stride)
    requires c.pos < |s| && '\0' !in s
    ensures r.next.pos > c.pos || (r.next.pos == c.pos && c.newline && !r.next.newline)
  {
    if c.newline then
      var e := PrefixEndAt(s, c.pos);
      var depth := Marks(s, c.pos, e);
      Stride(RequoteEvents(c.open, c.depth, depth), Cursor(e, false, c.code, depth, Requoted(c.open, c.depth, depth)))
    else if s[c.pos] == '\r' then Stride([], c.(pos := c.pos + 1))
    else if s[c.pos] == '\n' then
      Stride([if c.code then Text("\n") else Break], c.(pos := c.pos + 1, newline := !c.code))
    else if s[c.pos] == '>' && !c.code && ReferenceEnd(s, c.pos) > c.pos then
      var e := ReferenceEnd(s, c.pos);
      Stride([ReferenceEvent(posts, Value(s, c.pos, e), s[c.pos..e])], c.(pos := e))
    else if s[c.pos] == '[' && ObeyedAt(s, c.pos, c.code).Some? then
      var m := ObeyedAt(s, c.pos, c.code).value;
      Stride(EventsOf(c.open, m.tag, m.open),
             Cursor(m.end, m.tag == Code && !m.open && c.code, if m.tag == Code then m.open else c.code, c.depth,
                    StackAfter(c.open, m.tag, m.open)))
    else if s[c.pos] == '>' || s[c.pos] == '[' then
      Stride([Text([s[c.pos]])], c.(pos := c.pos + 1))
    else
      assert s[c.pos] in s;
      var e := TextEnd(s, c.pos);
      Stride([Text(s[c.pos..e])], c.(pos := e))
  }

  /** The number of a reference that runs from i to e. */
  ghost function Value(s: string, i: nat, e: nat): nat
    requires ReferenceTo(s, i, e)
  {
    NumberGrows(s, i + 2, 0, e - i - 2);
    Number(s, i + 2, e - i - 2)
  }

  /** All that is written from a cursor on. At the end everything is closed. */
  ghost function Rendered(s: string, posts: set<nat>, c: Cursor): seq<Event>
    requires '\0' !in s
    decreases if c.pos < |s| then |s| - c.pos else 0, c.newline
  {
    if c.pos >= |s| then Closes(c.open)
    else
      var r := StrideAt(s, posts, c);
      r.events + Rendered(s, posts, r.next)
  }

  const START := Cursor(0, true, false, 0, [])

  // ---- What is seen of what is written ----

  /** Elements and marks, which show no text and are no links. */
  ghost predicate Silent(out: seq<Event>) {
    forall i :: 0 <= i < |out| ==> out[i].Open? || out[i].Close? || out[i].Mark?
  }

  lemma {:induction false} SilentShown(out: seq<Event>)
    requires Silent(out)
    ensures Shown(out) == ""
  {
    if |out| > 0 { SilentShown(out[..|out| - 1]); }
  }

  lemma {:induction false} ClosesSilent(open: seq<Tag>)
    ensures Silent(Closes(open))
  {
    if |open| > 0 { ClosesSilent(open[..|open| - 1]); }
  }

  lemma {:induction false} OpensSilent(tags: seq<Tag>)
    ensures Silent(Opens(tags))
  {
    if |tags| > 0 { OpensSilent(tags[..|tags| - 1]); }
  }

  lemma EventsSilent(open: seq<Tag>, t: Tag, opening: bool)
    ensures Silent(EventsOf(open, t, opening))
  {
    ClosesSilent(open);
    if t in open {
      ClosesSilent(open[LastOf(open, t)..]);
      OpensSilent(open[LastOf(open, t) + 1..]);
    }
  }

  lemma {:induction false} QuoteClosesSilent(open: seq<Tag>, n: nat)
    ensures Silent(QuoteCloses(open, n))
  {
    if n > 0 {
      QuoteClosesSilent(open, n - 1);
      EventsSilent(QuotesClosed(open, n - 1), Quote, false);
    }
  }

  lemma VisibleOne(s: string, i: nat, code: bool)
    requires i < |s| && s[i] != '\r' && s[i] != '\n' && s[i] != '['
    ensures Visible(s, i, false, code) == [s[i]] + Visible(s, i + 1, false, code)
  {
  }

  /** A stretch without line ends, carriage returns and brackets is seen as it stands. */
  lemma {:induction false} VisibleText(s: string, i: nat, e: nat, code: bool)
    requires i <= e <= |s| && forall k :: i <= k < e ==> s[k] != '\r' && s[k] != '\n' && s[k] != '['
    ensures Visible(s, i, false, code) == s[i..e] + Visible(s, e, false, code)
    decreases e - i
  {
    hide Visible;
    if i < e {
      VisibleOne(s, i, code);
      VisibleText(s, i + 1, e, code);
      assert s[i..e] == [s[i]] + s[i + 1..e];
    }
  }

  lemma RequoteSilent(open: seq<Tag>, before: nat, depth: nat)
    ensures Silent(RequoteEvents(open, before, depth))
  {
    QuoteClosesSilent(open, Less(before, depth));
  }

  lemma ReferenceReads(s: string, i: nat, e: nat)
    requires i < e && ReferenceTo(s, i, e)
    ensures Refers(s[i..e], Value(s, i, e))
  {
    hide Refers;
    NumberGrows(s, i + 2, 0, e - i - 2);
    ReferenceText(s, i, e - i - 2);
    assert i + 2 + (e - i - 2) == e;
  }

  lemma ReferenceSeen(s: string, i: nat, e: nat)
    requires i < e && ReferenceTo(s, i, e)
    ensures Visible(s, i, false, false) == s[i..e] + Visible(s, e, false, false)
  {
    hide Visible, Number;
    forall k | i + 2 <= k < e ensures Digit(s[k]) { assert Digit(At(s, k)); }
    VisibleText(s, i, e, false);
  }

  /** A reference is seen as it stands, link or not. */
  lemma ReferenceShown(s: string, posts: set<nat>, i: nat, e: nat)
    requires i < e && ReferenceTo(s, i, e)
    ensures var events := [ReferenceEvent(posts, Value(s, i, e), s[i..e])];
      && Visible(s, i, false, false) == Shown(events) + Visible(s, e, false, false)
      && Linked(posts, events)
  {
    hide Visible, Refers, Value;
    ReferenceReads(s, i, e);
    ReferenceSeen(s, i, e);
    ShownOne(ReferenceEvent(posts, Value(s, i, e), s[i..e]));
  }

  /** One stride shows just what it passes. */
  ghost predicate ShowsStride(s: string, posts: set<nat>, c: Cursor)
    requires '\0' !in s && c.pos < |s|
  {
    var r := StrideAt(s, posts, c);
    && Visible(s, c.pos, c.newline, c.code) == Shown(r.events) + Visible(s, r.next.pos, r.next.newline, r.next.code)
    && Linked(posts, r.events)
  }

  lemma LineStartShown(s: string, posts: set<nat>, c: Cursor)
    requires '\0' !in s && c.pos < |s| && c.newline
    ensures ShowsStride(s, posts, c)
  {
    hide RequoteEvents, Requoted, Marks, PrefixAt, Shown, ObeyedAt;
    var events := StrideAt(s, posts, c).events;
    RequoteSilent(c.open, c.depth, Marks(s, c.pos, PrefixEndAt(s, c.pos)));
    SilentShown(events);
  }

  lemma TagShown(s: string, posts: set<nat>, c: Cursor)
    requires '\0' !in s && c.pos < |s| && !c.newline && s[c.pos] == '[' && ObeyedAt(s, c.pos, c.code).Some?
    ensures ShowsStride(s, posts, c)
  {
    hide EventsOf, StackAfter, Shown, ObeyedAt;
    var m := ObeyedAt(s, c.pos, c.code).value;
    EventsSilent(c.open, m.tag, m.open);
    SilentShown(EventsOf(c.open, m.tag, m.open));
  }

  lemma TextShown(s: string, posts: set<nat>, c: Cursor)
    requires '\0' !in s && c.pos < |s| && !c.newline && (s[c.pos] == '[' ==> ObeyedAt(s, c.pos, c.code).None?)
    requires s[c.pos] == '>' && !c.code ==> ReferenceEnd(s, c.pos) == c.pos
    ensures ShowsStride(s, posts, c)
  {
    hide Shown, ObeyedAt, ReferenceTo, Refers;
    var r, i := StrideAt(s, posts, c), c.pos;
    if s[i] == '\r' {
      SilentShown([]);
    } else {
      ShownOne(r.events[0]);
      if !Special(s[i]) { VisibleText(s, i, TextEnd(s, i), c.code); }
    }
  }

  lemma StrideShown(s: string, posts: set<nat>, c: Cursor)
    requires '\0' !in s && c.pos < |s|
    ensures ShowsStride(s, posts, c)
  {
    hide Visible, ObeyedAt, Shown, Linked, ReferenceTo, RequoteEvents, Requoted, EventsOf, StackAfter;
    if c.newline {
      LineStartShown(s, posts, c);
    } else if s[c.pos] == '[' && ObeyedAt(s, c.pos, c.code).Some? {
      TagShown(s, posts, c);
    } else if s[c.pos] == '>' && !c.code && ReferenceEnd(s, c.pos) > c.pos {
      ReferenceShown(s, posts, c.pos, ReferenceEnd(s, c.pos));
    } else {
      TextShown(s, posts, c);
    }
  }

  /** What is written from a cursor on shows what a reader is to see from there on, and links only posts that exist. */
  lemma {:induction false} ShownIsVisible(s: string, posts: set<nat>, c: Cursor)
    requires '\0' !in s
    ensures Shown(Rendered(s, posts, c)) == Visible(s, c.pos, c.newline, c.code)
    ensures Linked(posts, Rendered(s, posts, c))
    decreases if c.pos < |s| then |s| - c.pos else 0, c.newline
  {
    hide StrideAt, Visible, Shown, Closes, Refers;
    if c.pos >= |s| {
      NothingVisible(s, c);
      ClosesSilent(c.open);
      SilentShown(Closes(c.open));
    } else {
      var r := StrideAt(s, posts, c);
      StrideShown(s, posts, c);
      ShownIsVisible(s, posts, r.next);
      ShownJoin(r.events, Rendered(s, posts, r.next));
    }
  }

  lemma NothingVisible(s: string, c: Cursor)
    requires c.pos >= |s|
    ensures Visible(s, c.pos, c.newline, c.code) == ""
  {
  }

  // ---- What is linked ----

  datatype Reference = Reference(post: nat, text: string)

  /** The links of the output, in order. */
  function LinksOf(out: seq<Event>): seq<Reference> {
    if |out| == 0 then [] else LinkIn(out[0]) + LinksOf(out[1..])
  }

  function LinkIn(e: Event): seq<Reference> {
    if e.Link? then [Reference(e.post, e.text)] else []
  }

  /** The references to existing posts that a reader finds from i on, one character at a time: outside code blocks and
      outside the quote marks at the start of a line. */
  ghost function Referenced(s: string, posts: set<nat>, i: nat, newline: bool, code: bool): seq<Reference>
    decreases if i < |s| then |s| - i else 0, newline
  {
    if i >= |s| then []
    else if newline then Referenced(s, posts, PrefixEndAt(s, i), false, code)
    else if s[i] == '\n' then Referenced(s, posts, i + 1, !code, code)
    else if s[i] == '[' && ObeyedAt(s, i, code).Some? then
      var m := ObeyedAt(s, i, code).value;
      Referenced(s, posts, m.end, m.tag == Code && !m.open && code, if m.tag == Code then m.open else code)
    else if s[i] == '>' && !code && ReferenceEnd(s, i) > i then
      var e := ReferenceEnd(s, i);
      (if Value(s, i, e) in posts then [Reference(Value(s, i, e), s[i..e])] else []) +
        Referenced(s, posts, e, false, code)
    else Referenced(s, posts, i + 1, false, code)
  }

  lemma {:induction false} LinksJoin(a: seq<Event>, b: seq<Event>)
    ensures LinksOf(a + b) == LinksOf(a) + LinksOf(b)
  {
    hide LinkIn;
    if |a| == 0 {
      assert a + b == b;
    } else {
      assert (a + b)[1..] == a[1..] + b;
      LinksJoin(a[1..], b);
    }
  }

  lemma {:induction false} SilentUnlinked(out: seq<Event>)
    requires Silent(out)
    ensures LinksOf(out) == []
  {
    if |out| > 0 { SilentUnlinked(out[1..]); }
  }

  lemma OneLink(e: Event)
    ensures LinksOf([e]) == LinkIn(e)
  {
    assert [e][1..] == [];
  }

  /** Text without line ends, brackets and arrows refers to nothing. */
  lemma {:induction false} NoReferences(s: string, posts: set<nat>, i: nat, e: nat, code: bool)
    requires i <= e <= |s| && forall k :: i <= k < e ==> s[k] != '\n' && s[k] != '[' && s[k] != '>'
    ensures Referenced(s, posts, i, false, code) == Referenced(s, posts, e, false, code)
    decreases e - i
  {
    if i < e { NoReferences(s, posts, i + 1, e, code); }
  }

  /** One stride links just what it passes. */
  lemma StrideLinked(s: string, posts: set<nat>, c: Cursor)
    requires '\0' !in s && c.pos < |s|
    ensures var r := StrideAt(s, posts, c);
      Referenced(s, posts, c.pos, c.newline, c.code) ==
        LinksOf(r.events) + Referenced(s, posts, r.next.pos, r.next.newline, r.next.code)
  {
    hide RequoteEvents, Requoted, EventsOf, StackAfter, ObeyedAt, LinksOf, Marks, PrefixAt, ReferenceTo, Value;
    var r, i := StrideAt(s, posts, c), c.pos;
    if c.newline {
      RequoteSilent(c.open, c.depth, Marks(s, i, PrefixEndAt(s, i)));
      SilentUnlinked(r.events);
    } else if s[i] == '[' && ObeyedAt(s, i, c.code).Some? {
      var m := ObeyedAt(s, i, c.code).value;
      EventsSilent(c.open, m.tag, m.open);
      SilentUnlinked(r.events);
    } else if s[i] == '\r' {
      SilentUnlinked([]);
    } else {
      OneLink(r.events[0]);
      if !Special(s[i]) { NoReferences(s, posts, i, TextEnd(s, i), c.code); }
    }
  }

  /** What is written from a cursor on links exactly the references to existing posts that a reader finds from there. */
  lemma {:induction false} LinksAreReferences(s: string, posts: set<nat>, c: Cursor)
    requires '\0' !in s
    ensures LinksOf(Rendered(s, posts, c)) == Referenced(s, posts, c.pos, c.newline, c.code)
    decreases if c.pos < |s| then |s| - c.pos else 0, c.newline
  {
    hide StrideAt, LinksOf, Closes;
    if c.pos >= |s| {
      ClosesSilent(c.open);
      SilentUnlinked(Closes(c.open));
    } else {
      var r := StrideAt(s, posts, c);
      StrideLinked(s, posts, c);
      LinksAreReferences(s, posts, r.next);
      LinksJoin(r.events, Rendered(s, posts, r.next));
    }
  }

  // ---- What stands inside which elements ----

  /** A character, a break or the mark of a quoted line, with the elements around it. */
  datatype Sight = Char(c: char, around: seq<Tag>) | LineBreak(around: seq<Tag>) | QuoteMark(around: seq<Tag>)

  /** The open elements after an event that fits. */
  function After(open: seq<Tag>, e: Event): seq<Tag> {
    if e.Open? then open + [e.tag] else if e.Close? && |open| > 0 then open[..|open| - 1] else open
  }

  function StackOf(open: seq<Tag>, out: seq<Event>): seq<Tag>
    decreases |out|
  {
    if |out| == 0 then open else StackOf(After(open, out[0]), out[1..])
  }

  function CharsIn(text: string, around: seq<Tag>): seq<Sight> {
    seq(|text|, k requires 0 <= k < |text| => Char(text[k], around))
  }

  function SightsOf(open: seq<Tag>, e: Event): seq<Sight> {
    match e
    case Text(text) => CharsIn(text, open)
    case Link(_, text) => CharsIn(text, open)
    case Break => [LineBreak(open)]
    case Mark => [QuoteMark(open)]
    case _ => []
  }

  /** Everything that the events show, with the elements around it, when these elements are open before. */
  function Sights(open: seq<Tag>, out: seq<Event>): seq<Sight>
    decreases |out|
  {
    if |out| == 0 then [] else SightsOf(open, out[0]) + Sights(After(open, out[0]), out[1..])
  }

  /** The elements without the one of this kind that was opened last, if there is one. */
  function WithoutLast(around: seq<Tag>, t: Tag): seq<Tag> {
    if |around| == 0 then []
    else
      var n := |around| - 1;
      if around[n] == t then around[..n] else WithoutLast(around[..n], t) + [around[n]]
  }

  /** The elements around what follows a tag: a code block stands alone, and closing a tag takes away the last one of
      its kind and no other, whatever was opened since. */
  function AroundAfter(around: seq<Tag>, t: Tag, opening: bool): seq<Tag> {
    if !opening then WithoutLast(around, t) else if t == Code then [Code] else around + [t]
  }

  function WithoutQuotes(around: seq<Tag>, n: nat): seq<Tag> {
    if n == 0 then around else WithoutLast(WithoutQuotes(around, n - 1), Quote)
  }

  /** The elements around a line of some depth that follows one of another. */
  function AroundLine(around: seq<Tag>, before: nat, depth: nat): seq<Tag> {
    WithoutQuotes(around, Less(before, depth)) + seq(Less(depth, before), _ => Quote)
  }

  /** What a reader is to see of s from i on and inside which elements, the outermost first, one character at a time. */
  ghost function Styled(s: string, i: nat, newline: bool, code: bool, depth: nat, around: seq<Tag>): seq<Sight>
    decreases if i < |s| then |s| - i else 0, newline
  {
    if i >= |s| then []
    else if newline then
      var e := PrefixEndAt(s, i);
      var d := Marks(s, i, e);
      var line := AroundLine(around, depth, d);
      seq(d, _ => QuoteMark(line)) + Styled(s, e, false, code, d, line)
    else if s[i] == '\r' then Styled(s, i + 1, false, code, depth, around)
    else if s[i] == '\n' then
      [if code then Char('\n', around) else LineBreak(around)] + Styled(s, i + 1, !code, code, depth, around)
    else if s[i] == '[' && ObeyedAt(s, i, code).Some? then
      var m := ObeyedAt(s, i, code).value;
      Styled(s, m.end, m.tag == Code && !m.open && code, if m.tag == Code then m.open else code, depth,
             AroundAfter(around, m.tag, m.open))
    else [Char(s[i], around)] + Styled(s, i + 1, false, code, depth, around)
  }

  lemma {:induction false} SightsJoin(open: seq<Tag>, a: seq<Event>, b: seq<Event>)
    ensures Sights(open, a + b) == Sights(open, a) + Sights(StackOf(open, a), b)
    ensures StackOf(open, a + b) == StackOf(StackOf(open, a), b)
    decreases |a|
  {
    hide After, SightsOf;
    if |a| == 0 {
      assert a + b == b;
    } else {
      assert (a + b)[1..] == a[1..] + b;
      SightsJoin(After(open, a[0]), a[1..], b);
    }
  }

  lemma OneSight(open: seq<Tag>, e: Event)
    ensures Sights(open, [e]) == SightsOf(open, e) && StackOf(open, [e]) == After(open, e)
  {
    assert [e][1..] == [];
  }

  lemma {:induction false} ClosedSights(base: seq<Tag>, l: seq<Tag>)
    ensures Sights(base + l, Closes(l)) == [] && StackOf(base + l, Closes(l)) == base
  {
    if |l| == 0 {
      assert base + l == base;
    } else {
      var n := |l| - 1;
      var all := base + l;
      ClosedSights(base, l[..n]);
      assert all[..|all| - 1] == base + l[..n];
      assert Closes(l)[1..] == Closes(l[..n]);
    }
  }

  lemma {:induction false} OpenedSights(base: seq<Tag>, tags: seq<Tag>)
    ensures Sights(base, Opens(tags)) == [] && StackOf(base, Opens(tags)) == base + tags
  {
    hide Sights, StackOf;
    if |tags| == 0 {
      NoSights(base);
      assert base + tags == base;
    } else {
      var n := |tags| - 1;
      OpenedSights(base, tags[..n]);
      SightsJoin(base, Opens(tags[..n]), [Open(tags[n])]);
      OneSight(base + tags[..n], Open(tags[n]));
      assert base + tags[..n] + [tags[n]] == base + tags;
    }
  }

  lemma TagSights(open: seq<Tag>, t: Tag, opening: bool)
    ensures Sights(open, EventsOf(open, t, opening)) == []
    ensures StackOf(open, EventsOf(open, t, opening)) == StackAfter(open, t, opening)
  {
    hide Closes, Opens, Sights, StackOf, LastOf;
    if opening {
      var first := if t == Code then Closes(open) else [];
      if t == Code {
        ClosedSights([], open);
        assert [] + open == open;
      } else {
        NoSights(open);
      }
      SightsJoin(open, first, [Open(t)]);
      OneSight(if t == Code then [] else open, Open(t));
    } else if t in open {
      var i := LastOf(open, t);
      ClosedSights(open[..i], open[i..]);
      assert open[..i] + open[i..] == open;
      SightsJoin(open, Closes(open[i..]), Opens(open[i + 1..]));
      OpenedSights(open[..i], open[i + 1..]);
    } else {
      NoSights(open);
    }
  }

  lemma NoSights(open: seq<Tag>)
    ensures Sights(open, []) == [] && StackOf(open, []) == open
  {
  }

  lemma {:induction false} QuoteCloseSights(open: seq<Tag>, n: nat)
    ensures Sights(open, QuoteCloses(open, n)) == [] && StackOf(open, QuoteCloses(open, n)) == QuotesClosed(open, n)
  {
    hide EventsOf, StackAfter, Sights, StackOf;
    if n == 0 {
      NoSights(open);
    } else {
      QuoteCloseSights(open, n - 1);
      TagSights(QuotesClosed(open, n - 1), Quote, false);
      SightsJoin(open, QuoteCloses(open, n - 1), EventsOf(QuotesClosed(open, n - 1), Quote, false));
    }
  }

  lemma {:induction false} QuoteOpenSights(open: seq<Tag>, n: nat)
    ensures Sights(open, seq(n, _ => Open(Quote))) == []
    ensures StackOf(open, seq(n, _ => Open(Quote))) == open + seq(n, _ => Quote)
    decreases n
  {
    var events: seq<Event>, tags: seq<Tag> := seq(n, _ => Open(Quote)), seq(n, _ => Quote);
    if n > 0 {
      QuoteOpenSights(open + [Quote], n - 1);
      assert events[1..] == seq(n - 1, _ => Open(Quote));
      assert open + [Quote] + seq(n - 1, _ => Quote) == open + tags;
    } else {
      assert open + tags == open;
    }
  }

  lemma {:induction false} MarkSights(open: seq<Tag>, n: nat)
    ensures Sights(open, seq(n, _ => Mark)) == seq(n, _ => QuoteMark(open))
    ensures StackOf(open, seq(n, _ => Mark)) == open
  {
    var events: seq<Event>, sights: seq<Sight> := seq(n, _ => Mark), seq(n, _ => QuoteMark(open));
    if n > 0 {
      MarkSights(open, n - 1);
      assert events[1..] == seq(n - 1, _ => Mark);
      assert [QuoteMark(open)] + seq(n - 1, _ => QuoteMark(open)) == sights;
    }
  }

  lemma RequoteSights(open: seq<Tag>, before: nat, depth: nat)
    ensures var line := Requoted(open, before, depth);
      && Sights(open, RequoteEvents(open, before, depth)) == seq(depth, _ => QuoteMark(line))
      && StackOf(open, RequoteEvents(open, before, depth)) == line
  {
    hide Sights, StackOf, QuoteCloses, QuotesClosed;
    var n, m := Less(before, depth), Less(depth, before);
    var a, b, c := QuoteCloses(open, n), seq(m, _ => Open(Quote)), seq(depth, _ => Mark);
    QuoteCloseSights(open, n);
    QuoteOpenSights(QuotesClosed(open, n), m);
    MarkSights(Requoted(open, before, depth), depth);
    SightsJoin(open, a, b);
    SightsJoin(open, a + b, c);
  }

  lemma {:induction false} LastTakenFrom(a: seq<Tag>, t: Tag, b: seq<Tag>)
    requires t !in b
    ensures WithoutLast(a + [t] + b, t) == a + b
  {
    var all := a + [t] + b;
    if |b| == 0 {
      assert all == a + [t] && a + b == a;
    } else {
      var n := |b| - 1;
      assert all[..|all| - 1] == a + [t] + b[..n];
      LastTakenFrom(a, t, b[..n]);
      assert a + b[..n] + [b[n]] == a + b;
    }
  }

  lemma {:induction false} NothingTaken(open: seq<Tag>, t: Tag)
    requires t !in open
    ensures WithoutLast(open, t) == open
  {
    if |open| > 0 { NothingTaken(open[..|open| - 1], t); }
  }

  lemma LastTaken(open: seq<Tag>, t: Tag)
    ensures WithoutLast(open, t) == if t in open then open[..LastOf(open, t)] + open[LastOf(open, t) + 1..] else open
  {
    hide WithoutLast;
    if t in open {
      var i := LastOf(open, t);
      assert open == open[..i] + [t] + open[i + 1..];
      LastTakenFrom(open[..i], t, open[i + 1..]);
    } else {
      NothingTaken(open, t);
    }
  }

  lemma AroundTag(open: seq<Tag>, t: Tag, opening: bool)
    ensures StackAfter(open, t, opening) == AroundAfter(open, t, opening)
  {
    LastTaken(open, t);
  }

  lemma {:induction false} AroundClosed(open: seq<Tag>, n: nat)
    ensures QuotesClosed(open, n) == WithoutQuotes(open, n)
  {
    if n > 0 {
      AroundClosed(open, n - 1);
      AroundTag(QuotesClosed(open, n - 1), Quote, false);
    }
  }

  lemma AroundRequoted(open: seq<Tag>, before: nat, depth: nat)
    ensures Requoted(open, before, depth) == AroundLine(open, before, depth)
  {
    AroundClosed(open, Less(before, depth));
  }

  lemma StyledOne(s: string, i: nat, code: bool, depth: nat, around: seq<Tag>)
    requires i < |s| && s[i] != '\r' && s[i] != '\n' && (s[i] == '[' ==> ObeyedAt(s, i, code).None?)
    ensures Styled(s, i, false, code, depth, around) ==
      [Char(s[i], around)] + Styled(s, i + 1, false, code, depth, around)
  {
  }

  /** A stretch without line ends, carriage returns and brackets stands inside the same elements. */
  lemma {:induction false} StyledText(s: string, i: nat, e: nat, code: bool, depth: nat, around: seq<Tag>)
    requires i <= e <= |s| && forall k :: i <= k < e ==> s[k] != '\r' && s[k] != '\n' && s[k] != '['
    ensures Styled(s, i, false, code, depth, around) ==
      CharsIn(s[i..e], around) + Styled(s, e, false, code, depth, around)
    decreases e - i
  {
    hide Styled;
    if i < e {
      StyledOne(s, i, code, depth, around);
      StyledText(s, i + 1, e, code, depth, around);
      assert CharsIn(s[i..e], around) == [Char(s[i], around)] + CharsIn(s[i + 1..e], around);
    } else {
      assert CharsIn(s[i..e], around) == [];
    }
  }

  /** What one stride shows, inside the elements it should. */
  ghost predicate StrideStyled(s: string, posts: set<nat>, c: Cursor)
    requires '\0' !in s && c.pos < |s|
  {
    var r := StrideAt(s, posts, c);
    && StackOf(c.open, r.events) == r.next.open
    && Styled(s, c.pos, c.newline, c.code, c.depth, c.open) == Sights(c.open, r.events) +
         Styled(s, r.next.pos, r.next.newline, r.next.code, r.next.depth, r.next.open)
  }

  lemma LineStyled(s: string, posts: set<nat>, c: Cursor)
    requires '\0' !in s && c.pos < |s| && c.newline
    ensures StrideStyled(s, posts, c)
  {
    hide RequoteEvents, Requoted, Marks, PrefixAt, ObeyedAt, AroundLine, StackOf, Sights;
    var d := Marks(s, c.pos, PrefixEndAt(s, c.pos));
    RequoteSights(c.open, c.depth, d);
    AroundRequoted(c.open, c.depth, d);
  }

  lemma TagStyled(s: string, posts: set<nat>, c: Cursor)
    requires '\0' !in s && c.pos < |s| && !c.newline && s[c.pos] == '[' && ObeyedAt(s, c.pos, c.code).Some?
    ensures StrideStyled(s, posts, c)
  {
    hide EventsOf, StackAfter, ObeyedAt, AroundAfter, StackOf, Sights;
    var m := ObeyedAt(s, c.pos, c.code).value;
    TagSights(c.open, m.tag, m.open);
    AroundTag(c.open, m.tag, m.open);
  }

  lemma ReferenceStyled(s: string, posts: set<nat>, c: Cursor)
    requires '\0' !in s && c.pos < |s| && !c.newline && s[c.pos] == '>' && !c.code && ReferenceEnd(s, c.pos) > c.pos
    ensures StrideStyled(s, posts, c)
  {
    hide Styled, StackOf, Sights, Number, Value, CharsIn;
    var i, e := c.pos, ReferenceEnd(s, c.pos);
    forall k | i + 2 <= k < e ensures Digit(s[k]) { assert Digit(At(s, k)); }
    StyledText(s, i, e, false, c.depth, c.open);
    OneSight(c.open, ReferenceEvent(posts, Value(s, i, e), s[i..e]));
  }

  lemma TextStyled(s: string, posts: set<nat>, c: Cursor)
    requires '\0' !in s && c.pos < |s| && !c.newline && (s[c.pos] == '[' ==> ObeyedAt(s, c.pos, c.code).None?)
    requires s[c.pos] == '>' && !c.code ==> ReferenceEnd(s, c.pos) == c.pos
    ensures StrideStyled(s, posts, c)
  {
    hide ObeyedAt, ReferenceTo, StackOf, Sights;
    var r, i := StrideAt(s, posts, c), c.pos;
    if s[i] == '\r' {
      NoSights(c.open);
    } else {
      OneSight(c.open, r.events[0]);
      if !Special(s[i]) {
        StyledText(s, i, TextEnd(s, i), c.code, c.depth, c.open);
      } else {
        assert CharsIn([s[i]], c.open) == [Char(s[i], c.open)];
      }
    }
  }

  /** What is written from a cursor on stands inside exactly the elements that a reader keeps track of from there. */
  lemma {:induction false} SightsAreStyled(s: string, posts: set<nat>, c: Cursor)
    requires '\0' !in s
    ensures Sights(c.open, Rendered(s, posts, c)) ==
      Styled(s, c.pos, c.newline, c.code, c.depth, c.open)
    decreases if c.pos < |s| then |s| - c.pos else 0, c.newline
  {
    hide StrideAt, Sights, StackOf, Closes, ObeyedAt, ReferenceTo;
    if c.pos >= |s| {
      ClosedSights([], c.open);
      assert [] + c.open == c.open;
    } else {
      var r := StrideAt(s, posts, c);
      if c.newline {
        LineStyled(s, posts, c);
      } else if s[c.pos] == '[' && ObeyedAt(s, c.pos, c.code).Some? {
        TagStyled(s, posts, c);
      } else if s[c.pos] == '>' && !c.code && ReferenceEnd(s, c.pos) > c.pos {
        ReferenceStyled(s, posts, c);
      } else {
        TextStyled(s, posts, c);
      }
      SightsAreStyled(s, posts, r.next);
      SightsJoin(c.open, r.events, Rendered(s, posts, r.next));
    }
  }

  class Renderer {
    const s: string
    const posts: set<nat>
    const stack: array<Tag>
    var top: nat
    var ss: nat
    var code: bool
    var quoteDepth: nat
    var newline: bool
    var out: seq<Event>

    ghost predicate Nested()
      reads this`top, this`out, stack
    {
      top <= stack.Length && Run(out) == Some(stack[..top]) && CodeAlone(stack[..top])
    }

    /** Where the renderer is. */
    ghost function Here(): Cursor
      requires top <= stack.Length
      reads this`top, this`ss, this`newline, this`code, this`quoteDepth, stack
    {
      Cursor(ss, newline, code, quoteDepth, stack[..top])
    }

    constructor (s: string, posts: set<nat>)
      ensures Nested() && stack.Length == |s| && fresh(stack) && this.s == s && this.posts == posts
      ensures Here() == START && out == [] && Quotes() == 0
    {
      this.s, this.posts := s, posts;
      stack := new Tag[|s|];
      top, ss, code, quoteDepth, newline, out := 0, 0, false, 0, true, [];
    }

    method Emit(e: Event)
      requires Run(out).Some? && Step(Run(out).value, e).Some?
      modifies this`out
      ensures out == old(out) + [e] && Run(out) == Step(old(Run(out)).value, e)
    {
      RunOne(out, e);
      out := out + [e];
    }

    /** `OPEN_TAG` */
    method OpenTag(t: Tag)
      requires Nested() && top < stack.Length && Step(stack[..top], Open(t)).Some?
      modifies this`top, this`out, stack
      ensures Nested() && stack[..top] == old(stack[..top]) + [t] && out == old(out) + [Open(t)]
    {
      hide Run;
      Emit(Open(t));
      stack[top] := t;
      top := top + 1;
      assert stack[..top] == old(stack[..top]) + [t];
    }

    /** Closing the element on top of the first k + 1 of st. */
    method CloseTop(ghost st: seq<Tag>, k: nat, ghost before: seq<Event>)
      requires k < |st| && k < stack.Length && stack[k] == st[k]
      requires Run(out) == Some(st[..k + 1]) && out == before + Closes(st[k + 1..])
      modifies this`out
      ensures Run(out) == Some(st[..k]) && out == before + Closes(st[k..])
    {
      CloseOne(st, k);
      Emit(Close(stack[k]));
    }

    /** The part of `CLOSE_TAG` that closes the tags opened after this one, and this one. */
    method CloseDown(t: Tag, ghost at: nat) returns (k: nat)
      requires Nested() && at < top && stack[at] == t && forall j :: at < j < top ==> stack[j] != t
      modifies this`out
      ensures k == at && Run(out) == Some(stack[..k]) && out == old(out) + Closes(stack[k..top])
    {
      hide Closes, CodeAlone, Run;
      ghost var st := stack[..top];
      k := top - 1;
      assert st[..k + 1] == st && st[k + 1..] == [];
      ClosesNone();
      while stack[k] != t
        invariant at <= k < top
        invariant Run(out) == Some(st[..k + 1]) && out == old(out) + Closes(st[k + 1..])
        decreases k
      {
        CloseTop(st, k, old(out));
        k := k - 1;
      }
      CloseTop(st, k, old(out));
      assert st[..k] == stack[..k] && st[k..] == stack[k..top];
    }

    /** The `memmove` of `CLOSE_TAG`. */
    method RemoveAt(k: nat)
      requires k < top <= stack.Length
      modifies this`top, stack
      ensures top == old(top) - 1 && stack[..top] == old(stack[..k]) + old(stack[k + 1..top])
    {
      ghost var st, rest := stack[..top], stack[..k] + stack[k + 1..top];
      var m := k;
      while m < top - 1
        invariant k <= m <= top - 1 < stack.Length && top == |st|
        invariant forall j :: 0 <= j < m ==> stack[j] == rest[j]
        invariant forall j :: m <= j < top ==> stack[j] == st[j]
      {
        assert rest[m] == st[m + 1];
        stack[m] := stack[m + 1];
        m := m + 1;
      }
      top := top - 1;
    }

    /** The part of `CLOSE_TAG` that opens again what it had to close. */
    method Reopen(from: nat)
      requires from <= top <= stack.Length && Run(out) == Some(stack[..from]) && Code !in stack[..top]
      modifies this`out
      ensures Nested() && out == old(out) + Opens(stack[from..top])
    {
      hide Run, Opens, CodeAlone;
      var k := from;
      ghost var st := stack[..top];
      NothingOpen(st[..0]);
      assert st[from..from] == [] && st[..from] == stack[..from];
      while k < top
        invariant from <= k <= top
        invariant Run(out) == Some(st[..k]) && out == old(out) + Opens(st[from..k])
      {
        OpenOne(st, from, k);
        Emit(Open(stack[k]));
        k := k + 1;
      }
      assert st[from..k] == stack[from..top] && st[..k] == st;
      NoCodeAlone(st);
    }

    /** `CLOSE_TAG`: a tag opened later is closed first and opened again. */
    method CloseTag(t: Tag)
      requires Nested()
      modifies this`top, this`out, stack
      ensures Nested()
      ensures t !in old(stack[..top]) ==> stack[..top] == old(stack[..top]) && out == old(out)
      ensures t in old(stack[..top]) ==>
        var st := old(stack[..top]);
        var i := LastOf(st, t);
        stack[..top] == st[..i] + st[i + 1..] && out == old(out) + Closes(st[i..]) + Opens(st[i + 1..])
    {
      hide Closes, Opens, Run, Step, LastOf;
      ghost var st := stack[..top];
      var at := top as int - 1;
      while at >= 0 && stack[at] != t
        invariant -1 <= at < top
        invariant forall j :: at < j < top ==> stack[j] != t
      {
        at := at - 1;
      }
      if at < 0 { return; }
      LastIs(st, t, at);
      var k := CloseDown(t, at);
      assert stack[k..top] == st[k..] && stack[..k] == st[..k];
      RemoveAt(k);
      assert stack[..k] == st[..k] && stack[k..top] == st[k + 1..];
      Reopen(k);
    }

    /** `CLOSE_ALL` */
    method CloseAll()
      requires Nested()
      modifies this`top, this`out
      ensures Nested() && top == 0 && out == old(out) + Closes(old(stack[..top]))
    {
      hide Closes, Run, CodeAlone;
      ghost var st := stack[..top];
      var k := top;
      assert st[..k] == st && st[k..] == [];
      ClosesNone();
      while k > 0
        modifies this`out
        invariant k <= top
        invariant Run(out) == Some(st[..k]) && out == old(out) + Closes(st[k..])
      {
        k := k - 1;
        CloseTop(st, k, old(out));
      }
      assert st[k..] == st && st[..k] == stack[..0];
      NothingOpen(stack[..0]);
      top := 0;
    }

    /** How many quotes are open. */
    ghost function Quotes(): nat
      reads this`top, stack
    {
      if top <= stack.Length then multiset(stack[..top])[Tag.Quote] else 0
    }

    /** What holds between two turns of the loop of `write_bbcode`. */
    ghost predicate Sound()
      reads this, stack
    {
      && Quotes() <= quoteDepth
      && Nested() && ss <= |s| && top <= ss && stack.Length == |s|
      && (code <==> stack[..top] == [Code]) && (newline ==> !code)
    }

    method CloseQuote()
      requires Nested() && Code !in stack[..top]
      modifies this`top, this`out, stack
      ensures Nested() && Code !in stack[..top] && top <= old(top)
      ensures Quotes() == if old(Quotes()) > 0 then old(Quotes()) - 1 else 0
      ensures stack[..top] == StackAfter(old(stack[..top]), Quote, false)
      ensures out == old(out) + EventsOf(old(stack[..top]), Quote, false)
    {
      hide Run, Closes, Opens, CodeAlone, LastOf, StackAfter, EventsOf;
      NoCodeAfter(stack[..top], Quote);
      QuoteClosed(stack[..top], Quote);
      ClosingForm(stack[..top], Quote, out);
      CloseTag(Quote);
    }

    /** Quotes that end with the line before are closed. */
    method CloseQuotes(prevQuoteDepth: nat)
      requires Nested() && top <= stack.Length && Code !in stack[..top]
      modifies this`top, this`out, stack
      ensures Nested() && Code !in stack[..top] && top <= old(top)
      ensures Quotes() == Less(old(Quotes()), Less(prevQuoteDepth, quoteDepth))
      ensures stack[..top] == QuotesClosed(old(stack[..top]), Less(prevQuoteDepth, quoteDepth))
      ensures out == old(out) + QuoteCloses(old(stack[..top]), Less(prevQuoteDepth, quoteDepth))
    {
      hide Nested, Quotes, StackAfter, EventsOf;
      ghost var st := stack[..top];
      var j := quoteDepth;
      while j < prevQuoteDepth
        invariant Nested() && top <= old(top) <= stack.Length && Code !in stack[..top]
        invariant quoteDepth <= j && (j <= prevQuoteDepth || j == quoteDepth)
        invariant Quotes() == Less(old(Quotes()), j - quoteDepth)
        invariant stack[..top] == QuotesClosed(st, j - quoteDepth)
        invariant out == old(out) + QuoteCloses(st, j - quoteDepth)
      {
        CloseQuote();
        j := j + 1;
      }
    }

    method OpenQuote()
      requires Nested() && Code !in stack[..top] && top < stack.Length
      modifies this`top, this`out, stack
      ensures Nested() && Code !in stack[..top] && Quotes() == old(Quotes()) + 1
      ensures top == old(top) + 1 && stack[..top] == old(stack[..top]) + [Quote] && out == old(out) + [Open(Quote)]
    {
      hide Run;
      CodeLast(stack[..top], Quote);
      OpenTag(Quote);
    }

    /** Quotes that begin with this line are opened. */
    method OpenQuotes(prevQuoteDepth: nat)
      requires Nested() && Code !in stack[..top] && top + quoteDepth <= stack.Length
      modifies this`top, this`out, stack
      ensures Nested() && Code !in stack[..top] && top <= old(top) + quoteDepth
      ensures Quotes() == old(Quotes()) + Less(quoteDepth, prevQuoteDepth)
      ensures stack[..top] == old(stack[..top]) + seq(Less(quoteDepth, prevQuoteDepth), _ => Quote)
      ensures out == old(out) + seq(Less(quoteDepth, prevQuoteDepth), _ => Open(Quote))
    {
      hide Nested, Quotes;
      var j := prevQuoteDepth;
      while j < quoteDepth
        invariant prevQuoteDepth <= j && (j <= quoteDepth || j == prevQuoteDepth)
        invariant top == old(top) + (j - prevQuoteDepth) <= stack.Length
        invariant Nested() && Code !in stack[..top]
        invariant Quotes() == old(Quotes()) + (j - prevQuoteDepth)
        invariant stack[..top] == old(stack[..top]) + seq(j - prevQuoteDepth, _ => Quote)
        invariant out == old(out) + seq(j - prevQuoteDepth, _ => Open(Quote))
      {
        OpenQuote();
        j := j + 1;
      }
    }

    /** One mark for every quote the line is in. */
    method WriteMarks()
      requires Nested() && Code !in stack[..top]
      modifies this`out
      ensures Nested() && out == old(out) + seq(quoteDepth, _ => Mark)
    {
      hide Run;
      CodeLast(stack[..top], Quote);
      var j := 0;
      while j < quoteDepth
        invariant Nested() && j <= quoteDepth && out == old(out) + seq(j, _ => Mark)
      {
        Emit(Mark);
        j := j + 1;
      }
    }

    /** What the depth of a new line does to the open quotes. */
    method Requote(prevQuoteDepth: nat)
      requires Nested() && Code !in stack[..top] && top + quoteDepth <= stack.Length
      modifies this`top, this`out, stack
      ensures Nested() && Code !in stack[..top] && top <= old(top) + quoteDepth
      ensures old(Quotes()) <= prevQuoteDepth ==> Quotes() <= quoteDepth
      ensures stack[..top] == Requoted(old(stack[..top]), prevQuoteDepth, quoteDepth)
      ensures out == old(out) + RequoteEvents(old(stack[..top]), prevQuoteDepth, quoteDepth)
    {
      hide Nested, Quotes, QuotesClosed, QuoteCloses;
      CloseQuotes(prevQuoteDepth);
      OpenQuotes(prevQuoteDepth);
      WriteMarks();
    }

    lemma NoCodeHere(st: seq<Tag>)
      requires CodeAlone(st) && st != [Code]
      ensures Code !in st
    {
    }

    /** The start of a line. */
    method StartLine()
      requires Sound() && newline && ss < |s| && '\0' !in s
      modifies this`top, this`ss, this`quoteDepth, this`newline, this`out, stack
      ensures Sound() && !newline && Strode(old(Here()), old(out))
    {
      hide Quotes, Run, PrefixAt, Marks, CodeAlone, Requoted, RequoteEvents;
      var prevQuoteDepth := quoteDepth;
      var i: nat;
      i, quoteDepth := ScanQuote(s, ss);
      PrefixFound(s, ss, i);
      NoCodeHere(stack[..top]);
      Requote(prevQuoteDepth);
      CodeIsIn(stack[..top]);
      ss := ss + i;
      newline := false;
    }

    /** One stride has been taken since the renderer was at c with this output. */
    ghost predicate Strode(c: Cursor, before: seq<Event>)
      requires c.pos < |s| && '\0' !in s
      reads this, stack
    {
      && top <= stack.Length && Here() == StrideAt(s, posts, c).next
      && out == before + StrideAt(s, posts, c).events
    }

    /** `WRITE_ESCAPED` of the next n characters, which are then passed. */
    method WriteText(n: nat)
      requires Sound() && !newline && 0 < n && ss + n <= |s|
      modifies this`ss, this`out
      ensures Sound() && Here() == old(Here()).(pos := old(ss) + n) && out == old(out) + [Text(s[old(ss)..old(ss) + n])]
    {
      hide Quotes, Run;
      Emit(Text(s[ss..ss + n]));
      ss := ss + n;
    }

    lemma StackFits()
      requires Sound()
      ensures top <= stack.Length && ss <= |s|
    {
    }

    /** The case of a carriage return, which is dropped. */
    method CarriageReturn()
      requires Sound() && !newline && ss < |s| && s[ss] == '\r' && '\0' !in s
      modifies this`ss
      ensures Sound() && Strode(old(Here()), old(out))
    {
      hide Quotes, Run;
      ss := ss + 1;
    }

    /** The case of a line feed. */
    method LineFeed()
      requires Sound() && !newline && ss < |s| && s[ss] == '\n' && '\0' !in s
      modifies this`ss, this`newline, this`out
      ensures Sound() && Strode(old(Here()), old(out))
    {
      hide Quotes, Run, Step;
      assert s[ss..ss + 1] == "\n";
      if code {
        WriteText(1);
        return;
      }
      newline := true;
      NoCodeHere(stack[..top]);
      CodeLast(stack[..top], Quote);
      Emit(Break);
      ss := ss + 1;
    }

    /** A reference of i characters to a post that exists. */
    method WriteLink(i: nat, post: nat)
      requires Sound() && !newline && !code && i > 0 && ss + i <= |s|
      modifies this`ss, this`out
      ensures Sound() && Here() == old(Here()).(pos := old(ss) + i)
      ensures out == old(out) + [Link(post, s[old(ss)..old(ss) + i])]
    {
      hide Quotes, Run;
      NoCodeHere(stack[..top]);
      NoCode(stack[..top]);
      Emit(Link(post, s[ss..ss + i]));
      ss := ss + i;
    }

    /** The case of a `>`: a reference to a post that exists becomes a link. */
    method Arrow()
      requires Sound() && !newline && ss < |s| && s[ss] == '>' && '\0' !in s
      modifies this`ss, this`out
      ensures Sound() && Strode(old(Here()), old(out))
    {
      hide Sound, Refers, ReferenceTo, ReferenceAt;
      StackFits();
      assert s[ss..ss + 1] == ">";
      if code {
        WriteText(1);
        return;
      }
      var i, postId := ScanReference(s, ss);
      ReferenceFound(s, ss, i);
      if i > 0 {
        if postId in posts {
          WriteLink(i, postId);
        } else {
          WriteText(i);
        }
      } else {
        WriteText(1);
      }
    }

    /** What the tag of a code block does first: opening one closes everything, closing one starts a line. */
    method EnterOrLeaveCode(tag: Tag, open: bool)
      requires Nested() && !newline && (code ==> tag == Code && !open)
      modifies this`top, this`newline, this`code, this`out
      ensures Nested() && top <= old(top)
      ensures code == (if tag == Code then open else old(code)) && newline == (tag == Code && !open && old(code))
      ensures !(tag == Code && open) ==> top == old(top) && out == old(out)
      ensures tag == Code && open ==> top == 0 && out == old(out) + Closes(old(stack[..top]))
    {
      hide Run, Closes;
      if tag == Code {
        if open && !code { CloseAll(); }
        if !open && code { newline := true; }
        code := open;
      }
    }

    /** What a tag does to the stack. */
    method Obey(tag: Tag, open: bool)
      requires Nested() && (code <==> stack[..top] == [Code]) && !newline
      requires tag != Quote && top < stack.Length && (code ==> tag == Code && !open)
      modifies this`top, this`newline, this`code, this`out, stack
      ensures Nested() && top <= old(top) + 1 && code == (if tag == Code then open else old(code))
      ensures newline == (tag == Code && !open && old(code))
      ensures stack[..top] == StackAfter(old(stack[..top]), tag, open)
      ensures out == old(out) + EventsOf(old(stack[..top]), tag, open)
    {
      hide Run, Closes, Opens, Step, LastOf, StackAfter, EventsOf;
      ghost var st, out0 := stack[..top], out;
      EnterOrLeaveCode(tag, open);
      if open {
        OpeningForm(st, tag, out0);
        assert tag == Code ==> stack[..top] == [];
        OpenFits(stack[..top], tag);
        OpenTag(tag);
      } else {
        ClosingForm(st, tag, out0);
        assert stack[..top] == st;
        CloseTag(tag);
      }
    }

    lemma OpeningForm(st: seq<Tag>, t: Tag, before: seq<Event>)
      ensures StackAfter(st, t, true) == if t == Code then [Code] else st + [t]
      ensures before + EventsOf(st, t, true) ==
        if t == Code then before + Closes(st) + [Open(t)] else before + [Open(t)]
    {
    }

    lemma ClosingForm(st: seq<Tag>, t: Tag, before: seq<Event>)
      ensures t !in st ==> StackAfter(st, t, false) == st && before + EventsOf(st, t, false) == before
      ensures t in st ==>
        var i := LastOf(st, t);
        && StackAfter(st, t, false) == st[..i] + st[i + 1..]
        && before + EventsOf(st, t, false) == before + Closes(st[i..]) + Opens(st[i + 1..])
    {
    }

    /** After a tag the code flag says whether the code block is open, and quotes were at most closed. */
    lemma AfterTag(st: seq<Tag>, tag: Tag, opening: bool, inCode: bool)
      requires CodeAlone(st) && (inCode <==> st == [Code]) && tag != Quote && (inCode ==> tag == Code && !opening)
      ensures (if tag == Code then opening else inCode) <==> StackAfter(st, tag, opening) == [Code]
      ensures multiset(StackAfter(st, tag, opening))[Quote] <= multiset(st)[Quote]
    {
      hide LastOf;
      if opening { AfterOpening(st, tag); } else {
        NoCodeLeft(st, tag);
        QuoteClosed(st, tag);
        CodeIsIn(StackAfter(st, tag, false));
      }
    }

    lemma AfterOpening(st: seq<Tag>, tag: Tag)
      requires Code !in st && tag != Quote
      ensures tag == Code <==> StackAfter(st, tag, true) == [Code]
      ensures multiset(StackAfter(st, tag, true))[Quote] <= multiset(st)[Quote]
    {
      if tag != Code { assert (st + [tag])[|st|] == tag; }
    }

    lemma CodeIsIn(st: seq<Tag>)
      ensures st == [Code] ==> Code in st
    {
    }

    /** The tag of i characters at the cursor is obeyed and passed. */
    method TakeTag(i: nat, tag: Tag, open: bool)
      requires Sound() && !newline && i > 0 && ss + i <= |s|
      requires tag != Quote && (code ==> tag == Code && !open)
      modifies this`top, this`ss, this`newline, this`code, this`out, stack
      ensures Sound() && out == old(out) + EventsOf(old(stack[..top]), tag, open)
      ensures Here() == Cursor(old(ss) + i, tag == Code && !open && old(code), if tag == Code then open else old(code),
                               quoteDepth, StackAfter(old(stack[..top]), tag, open))
    {
      hide Run, StackAfter, EventsOf, CodeAlone;
      AfterTag(stack[..top], tag, open, code);
      Obey(tag, open);
      ss := ss + i;
    }

    /** The case of a `[`: a tag is obeyed, but in code only the tag that ends it. */
    method Bracket()
      requires Sound() && !newline && ss < |s| && s[ss] == '[' && '\0' !in s
      modifies this`top, this`ss, this`newline, this`code, this`out, stack
      ensures Sound() && Strode(old(Here()), old(out))
    {
      hide Sound, TagAt, StackAfter, EventsOf;
      StackFits();
      assert s[ss..ss + 1] == "[";
      var i, tag, open := ScanTag(s, ss);
      MarkupFound(s, ss, i, tag, open);
      if i == 0 || (code && !(tag == Code && !open)) {
        WriteText(1);
        return;
      }
      TakeTag(i, tag, open);
      StackFits();
    }

    /** The case of other text, up to the next character that may mean something. */
    method Letters()
      requires Sound() && !newline && ss < |s| && '\0' !in s && !Special(s[ss])
      modifies this`ss, this`out
      ensures Sound() && Strode(old(Here()), old(out))
    {
      hide Sound, StrideAt;
      StackFits();
      ghost var end := TextEnd(s, ss);
      TextStride(s, posts, Here());
      var i := 0;
      while !Special(At(s, ss + i))
        modifies {}
        invariant ss + i <= |s| && TextEnd(s, ss + i) == end && (i == 0 ==> !Special(s[ss]))
        decreases |s| - i
      {
        i := i + 1;
      }
      assert TextEnd(s, ss + i) == ss + i;
      WriteText(i);
    }

    /** The case that the next character falls into. */
    method Stretch()
      requires Sound() && !newline && ss < |s| && '\0' !in s
      modifies this`top, this`ss, this`newline, this`code, this`out, stack
      ensures Sound() && Strode(old(Here()), old(out))
    {
      hide Sound, Strode;
      assert s[ss] in s;
      var c := s[ss];
      if c == '\r' {
        CarriageReturn();
      } else if c == '\n' {
        LineFeed();
      } else if c == '>' {
        Arrow();
      } else if c == '[' {
        Bracket();
      } else {
        Letters();
      }
    }

    /** The body of the loop of `write_bbcode`. */
    method Turn()
      requires Sound() && ss < |s| && '\0' !in s
      modifies this, stack
      ensures Sound() && ss > old(ss)
      ensures out + Rendered(s, posts, Here()) == old(out + Rendered(s, posts, Here()))
    {
      hide Sound, StrideAt;
      StackFits();
      ghost var c, before := Here(), out;
      if newline {
        StartLine();
        StackFits();
        if ss == |s| { return; }
      }
      ghost var d, between := Here(), out;
      Stretch();
      StackFits();
      assert Rendered(s, posts, d) == StrideAt(s, posts, d).events + Rendered(s, posts, Here());
    }
  }

  /** `write_bbcode`: for every C string and whatever posts exist. The output nests, shows what a reader is to see, and
      links only posts that exist. */
  method WriteBbcode(s: string, posts: set<nat>) returns (out: seq<Event>)
    requires '\0' !in s
    ensures out == Rendered(s, posts, START)
    ensures LinksOf(out) == Referenced(s, posts, 0, true, false)
    ensures Sights([], out) == Styled(s, 0, true, false, 0, [])
    ensures Run(out) == Some([]) && Shown(out) == Visible(s, 0, true, false) && Linked(posts, out)
  {
    hide Renderer.Quotes, Run, Shown, Visible, Linked, Closes, LinksOf, Referenced, Sights, Styled;
    var r := new Renderer(s, posts);
    while r.ss < |s|
      invariant r.Sound() && r.s == s && r.posts == posts && fresh(r) && fresh(r.stack)
      invariant r.out + Rendered(s, posts, r.Here()) == Rendered(s, posts, START)
      decreases |s| - r.ss
    {
      r.Turn();
    }
    r.CloseAll();
    out := r.out;
    ShownIsVisible(s, posts, START);
    LinksAreReferences(s, posts, START);
    SightsAreStyled(s, posts, START);
  }

  lemma TextStride(s: string, posts: set<nat>, c: Cursor)
    requires '\0' !in s && c.pos < |s| && !c.newline && !Special(s[c.pos])
    ensures var e := TextEnd(s, c.pos);
      StrideAt(s, posts, c) == Stride([Text(s[c.pos..e])], c.(pos := e))
  {
  }

  lemma PrefixFound(s: string, i: nat, n: nat)
    requires if n > 0 then PrefixAt(s, i, i + n) else forall e :: !PrefixAt(s, i, e)
    ensures PrefixEndAt(s, i) == i + n
  {
    var e := PrefixEndAt(s, i);
    if n > 0 { PrefixEnd(s, i, i + n, e); }
  }

  lemma ReferenceFound(s: string, i: nat, n: nat)
    requires i < |s| && (n > 0 <==> ReferenceAt(s, i)) && (n > 0 ==> ReferenceTo(s, i, i + n))
    ensures ReferenceEnd(s, i) == i + n
  {
    var e := ReferenceEnd(s, i);
    if e > i { StartsReference(s, i, e); }
    if n > 0 { OneReference(s, i, i + n, e); }
  }

  lemma StartsReference(s: string, i: nat, e: nat)
    requires ReferenceTo(s, i, e)
    ensures ReferenceAt(s, i)
  {
    assert Digit(At(s, i + 2));
  }

  lemma MarkupFound(s: string, i: nat, n: nat, tag: Tag, open: bool)
    requires forall e, t, o :: TagAt(s, i, e, t, o) <==> n > 0 && e == i + n && t == tag && o == open
    ensures MarkupAt(s, i) == if n > 0 then Some(Markup(tag, open, i + n)) else None
  {
    hide TagAt;
    if n > 0 { assert TagAt(s, i, i + n, tag, open); }
  }

  lemma ClosesNone()
    ensures Closes([]) == []
  {
  }

  lemma NothingOpen(st: seq<Tag>)
    requires st == []
    ensures CodeAlone(st) && Opens([]) == []
  {
  }

  lemma NoCodeAlone(st: seq<Tag>)
    requires Code !in st
    ensures CodeAlone(st)
  {
  }

  lemma OpenOne(st: seq<Tag>, from: nat, k: nat)
    requires from <= k < |st| && Code !in st
    ensures Opens(st[from..k + 1]) == Opens(st[from..k]) + [Open(st[k])]
    ensures Step(st[..k], Open(st[k])) == Some(st[..k + 1])
  {
    assert st[from..k + 1][..k - from] == st[from..k];
    assert st[..k + 1] == st[..k] + [st[k]];
  }

  lemma CloseOne(st: seq<Tag>, k: nat)
    requires k < |st|
    ensures Closes(st[k..]) == Closes(st[k + 1..]) + [Close(st[k])]
    ensures Step(st[..k + 1], Close(st[k])) == Some(st[..k])
  {
    assert st[k..] == [st[k]] + st[k + 1..];
    ClosesMore(st[k], st[k + 1..]);
    assert st[..k + 1][..k] == st[..k];
  }

  lemma LastIs(open: seq<Tag>, t: Tag, i: nat)
    requires i < |open| && open[i] == t && forall j :: i < j < |open| ==> open[j] != t
    ensures t in open && LastOf(open, t) == i
  {
  }

  /** What closing a tag does to the number of open quotes. */
  lemma QuoteClosed(st: seq<Tag>, t: Tag)
    ensures t !in st ==> multiset(st)[t] == 0
    ensures t in st ==> var i := LastOf(st, t);
      multiset(st[..i] + st[i + 1..])[Quote] == multiset(st)[Quote] - if t == Quote then 1 else 0
  {
    if t in st {
      var i := LastOf(st, t);
      assert st == st[..i] + [t] + st[i + 1..];
    }
  }

  lemma CodeLast(st: seq<Tag>, t: Tag)
    requires Code !in st && t != Code
    ensures Step(st, Open(t)) == Some(st + [t]) && Step(st, Mark) == Some(st) && Step(st, Break) == Some(st)
  {
  }

  lemma NoCodeAfter(st: seq<Tag>, t: Tag)
    requires Code !in st
    ensures t in st ==> Code !in st[..LastOf(st, t)] + st[LastOf(st, t) + 1..]
  {
  }

  lemma OpenFits(st: seq<Tag>, t: Tag)
    requires t != Quote && Code !in st && (t == Code ==> st == [])
    ensures Step(st, Open(t)) == Some(st + [t])
  {
  }

  /** Closing a tag never uncovers a code block, and closing the code block leaves nothing open. */
  lemma NoCodeLeft(st: seq<Tag>, t: Tag)
    requires CodeAlone(st) && (Code in st ==> t == Code)
    ensures t !in st ==> Code !in st
    ensures t in st ==> Code !in st[..LastOf(st, t)] + st[LastOf(st, t) + 1..]
  {
    if Code !in st { NoCodeAfter(st, t); }
  }

  lemma NoCode(st: seq<Tag>)
    requires Code !in st
    ensures forall e: Event :: e.Link? ==> Step(st, e) == Some(st)
  {
  }
}
