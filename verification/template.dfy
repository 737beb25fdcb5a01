/** `SimpleStringTemplate`: templates such as `"Dear {name,-10;12:F}"`.

    A template is parsed by a table-driven state machine into particles:
    literal text, with `{{` and `}}` standing for single braces, and tags of
    a key with an optional minimum width (after `,`), maximum width (after
    `;`) and format (after `:`). Formatting replaces each tag by the text of
    its argument, padded to the minimum width and cut to the maximum.

    The argument resolver and the formatting of its value (`IFormattable`,
    `ICustomFormatter`) are one parameter that gives a tag's text.
 */
module Templates {
  import opened Wrappers
  import opened Text

  /** The parser's states (`States`). */
  datatype State =
    | Literal | LiteralOpenBrace | LiteralCloseBrace
    | Tag | MinWidth | MaxWidth | Format
    | TagOpen | TagClose | MinWidthClose | MaxWidthClose | FormatOpen | FormatClose

  /** A parsed piece of the template: literal text, or a tag with its key,
      widths and format. */
  datatype Particle = Particle(
    isLiteral: bool,
    value: string,
    minWidth: int,
    maxWidth: Option<int>,
    format: Option<string>)

  /** A fresh tag particle (`new Particle()`). */
  const NewTag: Particle := Particle(false, "", 0, None, None)

  function LiteralParticle(text: string): Particle {
    Particle(true, text, 0, None, None)
  }

  function TagParticle(key: string): Particle {
    NewTag.(value := key)
  }

  /** What a transition does to the parser's data after the character has
      been buffered and consumed. */
  datatype Action =
    | Keep          // nothing
    | Reject        // throw a FormatException
    | OpenTag       // emit the buffer as a literal, start a new tag
    | EndKey        // the buffer is the tag's key
    | EndMin        // the buffer is the minimum width
    | EndMax        // the buffer is the maximum width
    | CloseKey      // as EndKey, then emit the tag
    | CloseMin      // as EndMin, then emit the tag
    | CloseMax      // as EndMax, then emit the tag
    | CloseFormat   // the buffer is the format; emit the tag
    | EmitLiteral   // emit the buffer as a literal

  /** One row of the table: the next state, whether the character is
      buffered, whether it is consumed, and the action. */
  datatype Transition = Transition(next: State, add: bool, consume: bool, action: Action)

  /** The parser's data (`StateData` without the input and index): the
      particles so far, the tag being built and the buffer. */
  datatype Data = Data(particles: seq<Particle>, working: Particle, buffer: string)

  const Start: Data := Data([], NewTag, "")

  /** `char.IsDigit`, for the ASCII digits. */
  predicate IsWidthDigit(c: char) { IsAsciiDigit(c) }

  // ---------------------------------------------------------------------------
  // The table

  function Go(next: State): Transition { Transition(next, false, true, Keep) }
  function Add(next: State): Transition { Transition(next, true, true, Keep) }
  function Fail(next: State): Transition { Transition(next, false, true, Reject) }
  function Then(next: State, action: Action): Transition { Transition(next, false, true, action) }
  function Leave(next: State, action: Action): Transition { Transition(next, false, false, action) }

  /** The transition a state takes on a character: its character tests in
      order, then its else-transition. `bufferEmpty` is what the width states'
      test for a leading `-` looks at. */
  function Next(st: State, c: char, bufferEmpty: bool): Transition {
    match st
    case Literal =>
      if c == '{' then Go(LiteralOpenBrace)
      else if c == '}' then Go(LiteralCloseBrace)
      else Add(Literal)
    case LiteralOpenBrace =>
      if c == '{' then Add(Literal) else Leave(Tag, OpenTag)
    case LiteralCloseBrace =>
      if c == '}' then Add(Literal) else Fail(LiteralCloseBrace)
    case Tag =>
      if c == '\n' || c == '\r' then Fail(Tag)
      else if c == ',' then Then(MinWidth, EndKey)
      else if c == ';' then Then(MaxWidth, EndKey)
      else if c == ':' then Then(Format, EndKey)
      else if c == '{' then Go(TagOpen)
      else if c == '}' then Go(TagClose)
      else Add(Tag)
    case TagOpen =>
      if c == '{' then Add(Tag) else Fail(TagOpen)
    case TagClose =>
      if c == '}' then Add(Tag) else Leave(Literal, CloseKey)
    case MinWidth =>
      if c == '\n' || c == '\r' then Fail(Tag)
      else if c == ';' then Then(MaxWidth, EndMin)
      else if c == ':' then Then(Format, EndMin)
      else if c == '}' then Go(MinWidthClose)
      else if IsWidthDigit(c) || (c == '-' && bufferEmpty) then Add(MinWidth)
      else Fail(MinWidth)
    case MinWidthClose =>
      if c == '}' then Fail(MinWidthClose) else Leave(Literal, CloseMin)
    case MaxWidth =>
      if c == '\n' || c == '\r' then Fail(Tag)
      else if c == ':' then Then(Format, EndMax)
      else if c == '}' then Go(MaxWidthClose)
      else if IsWidthDigit(c) || (c == '-' && bufferEmpty) then Add(MaxWidth)
      else Fail(MaxWidth)
    case MaxWidthClose =>
      if c == '}' then Fail(MaxWidthClose) else Leave(Literal, CloseMax)
    case Format =>
      if c == '{' then Go(FormatOpen)
      else if c == '}' then Go(FormatClose)
      else Add(Format)
    case FormatOpen =>
      if c == '{' then Add(Format) else Fail(FormatOpen)
    case FormatClose =>
      if c == '}' then Add(Format) else Leave(Literal, CloseFormat)
  }

  /** The action at the end of the input: the state's terminal action, or
      else the action of its else-transition. */
  function Terminal(st: State): Action {
    match st
    case Literal => EmitLiteral
    case TagClose => CloseKey
    case MinWidthClose => CloseMin
    case MaxWidthClose => CloseMax
    case FormatClose => CloseFormat
    case _ => Reject
  }

  /** The states whose character is not consumed by their else-transition;
      every other step consumes a character. */
  function Rank(st: State): nat {
    match st
    case LiteralOpenBrace | TagClose | MinWidthClose | MaxWidthClose | FormatClose => 1
    case _ => 0
  }

  // ---------------------------------------------------------------------------
  // Running the machine

  /** The effect of an action; the widths go through `int.Parse`. */
  function Apply(action: Action, d: Data): (r: Outcome<Data>)
    ensures r.Throws? ==> action in {Reject, EndMin, EndMax, CloseMin, CloseMax}
    ensures r.Throws? && action == Reject ==> r.error == FormatException
  {
    match action
    case Keep => Returns(d)
    case Reject => Throws(FormatException)
    case OpenTag => Returns(Data(d.particles + [LiteralParticle(d.buffer)], NewTag, ""))
    case EndKey => Returns(Data(d.particles, d.working.(value := d.buffer), ""))
    case EndMin =>
      var w :- ParseInt32(d.buffer);
      Returns(Data(d.particles, d.working.(minWidth := w), ""))
    case EndMax =>
      var w :- ParseInt32(d.buffer);
      Returns(Data(d.particles, d.working.(maxWidth := Some(w)), ""))
    case CloseKey =>
      var p := d.working.(value := d.buffer);
      Returns(Data(d.particles + [p], p, ""))
    case CloseMin =>
      var w :- ParseInt32(d.buffer);
      var p := d.working.(minWidth := w);
      Returns(Data(d.particles + [p], p, ""))
    case CloseMax =>
      var w :- ParseInt32(d.buffer);
      var p := d.working.(maxWidth := Some(w));
      Returns(Data(d.particles + [p], p, ""))
    case CloseFormat =>
      var p := d.working.(format := Some(d.buffer));
      Returns(Data(d.particles + [p], p, ""))
    case EmitLiteral => Returns(Data(d.particles + [LiteralParticle(d.buffer)], d.working, d.buffer))
  }

  /** One iteration of the parse loop on character `c`: buffer it, consume
      it, run the action, and refuse a step that neither consumes nor changes
      state. Every step that returns consumes its character or moves to a
      state of lower rank. */
  function Step(st: State, c: char, d: Data): (r: Outcome<(State, Data, bool)>)
    ensures r.Returns? ==> r.value.2 || r.value.0 != st
    ensures r.Returns? ==> r.value.2 || Rank(r.value.0) < Rank(st)
    ensures r.Returns? ==> r.value.2 == Next(st, c, |d.buffer| == 0).consume
  {
    var t := Next(st, c, |d.buffer| == 0);
    var d1 := if t.add then d.(buffer := d.buffer + [c]) else d;
    var d2 :- Apply(t.action, d1);
    if t.next == st && !t.consume then Throws(FormatException)
    else Returns((t.next, d2, t.consume))
  }

  /** The end of the input: the terminal action, then the particles. */
  function Finish(st: State, d: Data): (r: Outcome<seq<Particle>>)
    ensures Terminal(st) == Reject ==> r == Throws(FormatException)
  {
    var d1 :- Apply(Terminal(st), d);
    Returns(d1.particles)
  }

  /** The parse loop over the rest of the input. */
  function Run(rest: string, st: State, d: Data): Outcome<seq<Particle>>
    decreases |rest|, Rank(st)
  {
    if |rest| == 0 then Finish(st, d)
    else
      match Step(st, rest[0], d)
      case Throws(e) => Throws(e)
      case Returns((st1, d1, consumed)) =>
        if consumed then Run(rest[1..], st1, d1) else Run(rest, st1, d1)
  }

  /** `Parse(template)`: the particles, or the exception of the first error. */
  function Parse(template: string): Outcome<seq<Particle>> {
    Run(template, Literal, Start)
  }

  // ---------------------------------------------------------------------------
  // Errors

  /** A line break inside a tag's key or widths is rejected. */
  lemma LineBreakInTagRejected(st: State, c: char, d: Data)
    requires st in {Tag, MinWidth, MaxWidth} && (c == '\n' || c == '\r')
    ensures Step(st, c, d) == Throws(FormatException)
  {
  }

  /** Input that ends after a lone `{`, after a lone `}`, or inside a tag's
      key, widths or format, or just after a brace inside one, is rejected. */
  lemma UnclosedRejected(st: State, d: Data)
    requires st !in {Literal, TagClose, MinWidthClose, MaxWidthClose, FormatClose}
    ensures Run("", st, d) == Throws(FormatException)
  {
  }

  /** Inside a width, the machine stays in that width exactly for a digit, or
      for a `-` as the first character. */
  lemma WidthCharacters(st: State, c: char, d: Data)
    requires st == MinWidth || st == MaxWidth
    ensures Step(st, c, d).Returns? && Step(st, c, d).value.0 == st
      <==> IsWidthDigit(c) || (c == '-' && |d.buffer| == 0)
    ensures IsWidthDigit(c) || (c == '-' && |d.buffer| == 0) ==>
      Step(st, c, d) == Returns((st, d.(buffer := d.buffer + [c]), true))
  {
  }

  /** Whatever follows a width, other than a digit, a leading `-` or the
      characters that end it, is rejected. */
  lemma WidthOtherRejected(st: State, c: char, d: Data)
    requires st == MinWidth || st == MaxWidth
    requires !IsWidthDigit(c) && !(c == '-' && |d.buffer| == 0)
    requires c !in {'}', ':'} && (st == MaxWidth || c != ';')
    ensures Step(st, c, d) == Throws(FormatException)
  {
  }

  // ---------------------------------------------------------------------------
  // Escapes

  /** Literal text written as a template: every brace doubled. */
  function Escape(s: string): (r: string)
    ensures |r| >= |s|
    ensures |s| > 0 ==> |r| > 0 && (r[0] == '}' <==> s[0] == '}') && (r[0] == '{' <==> s[0] == '{')
  {
    if |s| == 0 then ""
    else (if s[0] == '{' then "{{" else if s[0] == '}' then "}}" else [s[0]]) + Escape(s[1..])
  }

  /** One iteration of the loop, unfolded. */
  lemma RunStep(rest: string, st: State, d: Data, st1: State, d1: Data, consumed: bool)
    requires |rest| > 0 && Step(st, rest[0], d) == Returns((st1, d1, consumed))
    ensures Run(rest, st, d) == if consumed then Run(rest[1..], st1, d1) else Run(rest, st1, d1)
  {
  }

  /** A transition without an action moves on with the character buffered
      if the table says so. */
  lemma StepKeep(st: State, c: char, d: Data)
    requires Next(st, c, |d.buffer| == 0).action == Keep
    requires Next(st, c, |d.buffer| == 0).consume
    ensures var t := Next(st, c, |d.buffer| == 0);
      Step(st, c, d) == Returns((t.next, if t.add then d.(buffer := d.buffer + [c]) else d, true))
  {
  }

  /** A doubled brace, or any other character, in literal text adds one
      character to the buffer. */
  lemma RunLiteralChar(c: char, tail: string, d: Data)
    ensures var e := if c == '{' then "{{" else if c == '}' then "}}" else [c];
      Run(e + tail, Literal, d) == Run(tail, Literal, d.(buffer := d.buffer + [c]))
  {
    var d1 := d.(buffer := d.buffer + [c]);
    if c == '{' || c == '}' {
      var e := [c, c] + tail;
      var mid := if c == '{' then LiteralOpenBrace else LiteralCloseBrace;
      assert e[1..][1..] == tail;
      StepKeep(Literal, c, d);
      RunStep(e, Literal, d, mid, d, true);
      StepKeep(mid, c, d);
      RunStep(e[1..], mid, d, Literal, d1, true);
    } else {
      var e := [c] + tail;
      assert e[1..] == tail;
      StepKeep(Literal, c, d);
      RunStep(e, Literal, d, Literal, d1, true);
    }
  }

  /** Escaped text is read as literal text: `{{` and `}}` each give one
      brace, and every other character itself. */
  lemma {:induction false} RunEscaped(t: string, rest: string, d: Data)
    ensures Run(Escape(t) + rest, Literal, d) == Run(rest, Literal, d.(buffer := d.buffer + t))
    decreases |t|
  {
    if |t| == 0 {
      assert Escape(t) + rest == rest;
      assert d.(buffer := d.buffer + t) == d;
    } else {
      var c := t[0];
      var tail := Escape(t[1..]) + rest;
      var d1 := d.(buffer := d.buffer + [c]);
      EscapeCons(t, rest);
      RunLiteralChar(c, tail, d);
      RunEscaped(t[1..], rest, d1);
      BufferCons(d.buffer, t);
    }
  }

  /** Escaping the first character, then the rest. */
  lemma EscapeCons(t: string, rest: string)
    requires |t| > 0
    ensures var c := t[0];
      Escape(t) + rest == (if c == '{' then "{{" else if c == '}' then "}}" else [c]) + (Escape(t[1..]) + rest)
  {
    var c := t[0];
    var e := if c == '{' then "{{" else if c == '}' then "}}" else [c];
    assert Escape(t) == e + Escape(t[1..]);
    AppendAssoc(e, Escape(t[1..]), rest);
  }

  /** Concatenation is associative. */
  lemma AppendAssoc<T>(a: seq<T>, b: seq<T>, c: seq<T>)
    ensures (a + b) + c == a + (b + c)
  {
  }

  /** Buffering the first character, then the rest. */
  lemma BufferCons(buffer: string, t: string)
    requires |t| > 0
    ensures buffer + [t[0]] + t[1..] == buffer + t
  {
    assert t == [t[0]] + t[1..];
  }

  /** At the end of literal text the buffer becomes the last particle. */
  lemma FinishLiteral(d: Data)
    ensures Run("", Literal, d) == Returns(d.particles + [LiteralParticle(d.buffer)])
  {
    assert Terminal(Literal) == EmitLiteral;
    var d1 := Data(d.particles + [LiteralParticle(d.buffer)], d.working, d.buffer);
    assert Apply(EmitLiteral, d) == Returns(d1);
  }

  /** A template with every brace doubled parses to one literal particle of
      the original text. */
  lemma ParseEscaped(s: string)
    ensures Parse(Escape(s)) == Returns([LiteralParticle(s)])
  {
    RunEscaped(s, "", Start);
    assert Escape(s) + "" == Escape(s);
    assert Start.(buffer := Start.buffer + s) == Data([], NewTag, s);
    FinishLiteral(Data([], NewTag, s));
    assert [] + [LiteralParticle(s)] == [LiteralParticle(s)];
  }

  /** A `}` in literal text that is not doubled is rejected, at the end of
      the input as anywhere else. */
  lemma UnescapedCloseRejected(s: string, c: char, rest: string)
    requires c != '}'
    ensures Parse(Escape(s) + "}") == Throws(FormatException)
    ensures Parse(Escape(s) + "}" + [c] + rest) == Throws(FormatException)
  {
    UnescapedCloseAtEnd(s);
    UnescapedCloseBefore(s, c, rest);
  }

  lemma UnescapedCloseAtEnd(s: string)
    ensures Parse(Escape(s) + "}") == Throws(FormatException)
  {
    RunEscaped(s, "}", Start);
  }

  lemma UnescapedCloseBefore(s: string, c: char, rest: string)
    requires c != '}'
    ensures Parse(Escape(s) + "}" + [c] + rest) == Throws(FormatException)
  {
    var tail := "}" + [c] + rest;
    RunEscaped(s, tail, Start);
    assert Escape(s) + "}" + [c] + rest == Escape(s) + tail;
    assert tail[0] == '}' && tail[1..] == [c] + rest;
  }

  /** A `{` at the end of the input is rejected. */
  lemma LoneOpenAtEndRejected(s: string)
    ensures Parse(Escape(s) + "{") == Throws(FormatException)
  {
    RunEscaped(s, "{", Start);
  }

  // ---------------------------------------------------------------------------
  // Tags

  /** A key without line breaks, width or format separators, or braces. */
  predicate PlainKey(k: string) {
    forall i :: 0 <= i < |k| ==> k[i] !in {'\n', '\r', ',', ';', ':', '{', '}'}
  }

  /** The characters of a plain key are buffered one by one. */
  lemma {:induction false} RunKey(k: string, rest: string, d: Data)
    requires PlainKey(k)
    ensures Run(k + rest, Tag, d) == Run(rest, Tag, d.(buffer := d.buffer + k))
    decreases |k|
  {
    if |k| == 0 {
      assert k + rest == rest;
      assert d.(buffer := d.buffer + k) == d;
    } else {
      var d1 := d.(buffer := d.buffer + [k[0]]);
      assert (k + rest)[0] == k[0] && (k + rest)[1..] == k[1..] + rest;
      StepKeep(Tag, k[0], d);
      RunStep(k + rest, Tag, d, Tag, d1, true);
      RunKey(k[1..], rest, d1);
      assert d1.buffer + k[1..] == d.buffer + k;
    }
  }

  /** After a lone `{`, the next character starts the key of a tag: the
      buffer becomes a literal particle. */
  lemma StepOpenTag(c: char, d: Data)
    requires c != '{'
    ensures Step(LiteralOpenBrace, c, d) == Returns((Tag, Data(d.particles + [LiteralParticle(d.buffer)], NewTag, ""), false))
  {
  }

  /** After the `}` of a tag, any character but `}` ends the tag: the buffer
      becomes its key and the tag a particle. */
  lemma StepCloseKey(c: char, d: Data)
    requires c != '}'
    ensures Step(TagClose, c, d) ==
      Returns((Literal, Data(d.particles + [d.working.(value := d.buffer)], d.working.(value := d.buffer), ""), false))
  {
  }

  /** A tag ended by the end of the input is a particle. */
  lemma FinishCloseKey(d: Data)
    ensures Run("", TagClose, d) == Returns(d.particles + [d.working.(value := d.buffer)])
  {
    assert Terminal(TagClose) == CloseKey;
    var p := d.working.(value := d.buffer);
    assert Apply(CloseKey, d) == Returns(Data(d.particles + [p], p, ""));
  }

  /** Escaped text, `{` and a plain key leave the parser in the tag with
      the text as the first particle and the key in the buffer. */
  lemma RunToKey(a: string, k: string, after: string)
    requires PlainKey(k) && |k + after| > 0 && (k + after)[0] != '{'
    ensures Parse(Escape(a) + "{" + k + after) == Run(after, Tag, Data([LiteralParticle(a)], NewTag, k))
  {
    var rest := "{" + (k + after);
    assert Escape(a) + "{" + k + after == Escape(a) + rest;
    RunEscaped(a, rest, Start);
    var d0 := Data([], NewTag, a);
    assert Start.(buffer := Start.buffer + a) == d0;
    assert rest[0] == '{' && rest[1..] == k + after;
    StepKeep(Literal, '{', d0);
    RunStep(rest, Literal, d0, LiteralOpenBrace, d0, true);
    var d1 := Data([LiteralParticle(a)], NewTag, "");
    StepOpenTag((k + after)[0], d0);
    assert [] + [LiteralParticle(a)] == [LiteralParticle(a)];
    RunStep(k + after, LiteralOpenBrace, d0, Tag, d1, false);
    RunKey(k, after, d1);
    assert d1.(buffer := d1.buffer + k) == Data([LiteralParticle(a)], NewTag, k);
  }

  /** The `}` that closes a tag leaves the parser just after it. */
  lemma RunToClose(a: string, k: string, rest: string)
    ensures Run("}" + rest, Tag, Data([LiteralParticle(a)], NewTag, k)) == Run(rest, TagClose, Data([LiteralParticle(a)], NewTag, k))
  {
    var d2 := Data([LiteralParticle(a)], NewTag, k);
    assert ("}" + rest)[0] == '}' && ("}" + rest)[1..] == rest;
    StepKeep(Tag, '}', d2);
    RunStep("}" + rest, Tag, d2, TagClose, d2, true);
  }

  /** A tag closed at the end of the input is the last particle. */
  lemma RunCloseAtEnd(a: string, k: string)
    ensures Run("", TagClose, Data([LiteralParticle(a)], NewTag, k)) == Returns([LiteralParticle(a), TagParticle(k)])
  {
    var d2 := Data([LiteralParticle(a)], NewTag, k);
    FinishCloseKey(d2);
    assert d2.working.(value := d2.buffer) == TagParticle(k);
    assert [LiteralParticle(a)] + [TagParticle(k)] == [LiteralParticle(a), TagParticle(k)];
  }

  /** A tag closed before escaped text is followed by that text. */
  lemma RunCloseBeforeText(a: string, k: string, b: string)
    requires |b| > 0 && b[0] != '}'
    ensures Run(Escape(b), TagClose, Data([LiteralParticle(a)], NewTag, k)) ==
            Returns([LiteralParticle(a), TagParticle(k), LiteralParticle(b)])
  {
    var d2 := Data([LiteralParticle(a)], NewTag, k);
    var tag := TagParticle(k);
    assert d2.working.(value := d2.buffer) == tag;
    assert [LiteralParticle(a)] + [tag] == [LiteralParticle(a), tag];
    var d3 := Data([LiteralParticle(a), tag], tag, "");
    StepCloseKey(Escape(b)[0], d2);
    RunStep(Escape(b), TagClose, d2, Literal, d3, false);
    RunEscaped(b, "", d3);
    assert Escape(b) + "" == Escape(b);
    assert d3.(buffer := d3.buffer + b) == Data([LiteralParticle(a), tag], tag, b);
    FinishLiteral(Data([LiteralParticle(a), tag], tag, b));
    assert [LiteralParticle(a), tag] + [LiteralParticle(b)] == [LiteralParticle(a), tag, LiteralParticle(b)];
  }

  /** A plain tag between two pieces of escaped text parses to the literal,
      the tag and, when there is text after it, the second literal. */
  lemma ParseTag(a: string, k: string, b: string)
    requires PlainKey(k)
    requires |b| > 0 ==> b[0] != '}'
    ensures |b| == 0 ==> Parse(Escape(a) + "{" + k + "}" + Escape(b)) == Returns([LiteralParticle(a), TagParticle(k)])
    ensures |b| > 0 ==> Parse(Escape(a) + "{" + k + "}" + Escape(b)) == Returns([LiteralParticle(a), TagParticle(k), LiteralParticle(b)])
  {
    var after := "}" + Escape(b);
    assert Escape(a) + "{" + k + "}" + Escape(b) == Escape(a) + "{" + k + after;
    assert (k + after)[0] != '{';
    RunToKey(a, k, after);
    RunToClose(a, k, Escape(b));
    if |b| == 0 {
      assert Escape(b) == "";
      RunCloseAtEnd(a, k);
    } else {
      RunCloseBeforeText(a, k, b);
    }
  }

  /** Digits in a width are buffered one by one. */
  lemma {:induction false} RunDigits(ds: string, rest: string, st: State, d: Data)
    requires st == MinWidth || st == MaxWidth
    requires AllDigits(ds)
    ensures Run(ds + rest, st, d) == Run(rest, st, d.(buffer := d.buffer + ds))
    decreases |ds|
  {
    if |ds| == 0 {
      assert ds + rest == rest;
      assert d.(buffer := d.buffer + ds) == d;
    } else {
      var d1 := d.(buffer := d.buffer + [ds[0]]);
      assert (ds + rest)[0] == ds[0] && (ds + rest)[1..] == ds[1..] + rest;
      WidthCharacters(st, ds[0], d);
      RunStep(ds + rest, st, d, st, d1, true);
      RunDigits(ds[1..], rest, st, d1);
      BufferCons(d.buffer, ds);
    }
  }

  /** A width written as `int.ToString()` writes it is buffered whole. */
  lemma RunWidthText(m: int, rest: string, st: State, d: Data)
    requires st == MinWidth || st == MaxWidth
    requires d.buffer == ""
    ensures Run(IntText(m) + rest, st, d) == Run(rest, st, d.(buffer := IntText(m)))
  {
    var w := IntText(m);
    if m < 0 {
      var d1 := d.(buffer := "-");
      assert (w + rest)[0] == '-' && (w + rest)[1..] == w[1..] + rest;
      WidthCharacters(st, '-', d);
      assert d.(buffer := d.buffer + ['-']) == d1;
      RunStep(w + rest, st, d, st, d1, true);
      RunDigits(w[1..], rest, st, d1);
      assert "-" + w[1..] == w;
    } else {
      RunDigits(w, rest, st, d);
      assert "" + w == w;
    }
  }

  /** A `,` after a plain key ends the key and starts the minimum width. */
  lemma StepEndKey(d: Data)
    ensures Step(Tag, ',', d) == Returns((MinWidth, Data(d.particles, d.working.(value := d.buffer), ""), true))
  {
  }

  /** A tag closed at the end of the input right after its minimum width
      is the last particle, when the width is a 32-bit number. */
  lemma FinishCloseMin(d: Data)
    ensures ParseInt32(d.buffer).Returns? ==>
      Run("", MinWidthClose, d) == Returns(d.particles + [d.working.(minWidth := ParseInt32(d.buffer).value)])
    ensures ParseInt32(d.buffer).Throws? ==> Run("", MinWidthClose, d) == Throws(ParseInt32(d.buffer).error)
  {
    assert Terminal(MinWidthClose) == CloseMin;
  }

  /** A tag with a minimum width parses to a tag particle with that width
      when it is a 32-bit number, and overflows otherwise. */
  lemma ParseMinWidthTag(a: string, k: string, m: int)
    requires PlainKey(k)
    ensures IsInt32(m) ==>
      Parse(Escape(a) + "{" + k + "," + IntText(m) + "}") == Returns([LiteralParticle(a), TagParticle(k).(minWidth := m)])
    ensures !IsInt32(m) ==> Parse(Escape(a) + "{" + k + "," + IntText(m) + "}") == Throws(OverflowException)
  {
    var after := "," + (IntText(m) + "}");
    assert Escape(a) + "{" + k + "," + IntText(m) + "}" == Escape(a) + "{" + k + after;
    assert (k + after)[0] != '{';
    RunToKey(a, k, after);
    RunMinWidthTail(a, k, m);
  }

  /** After the key, `,`, the width and `}` end the input with the tag
      holding that minimum width. */
  lemma RunMinWidthTail(a: string, k: string, m: int)
    ensures var r := Run("," + (IntText(m) + "}"), Tag, Data([LiteralParticle(a)], NewTag, k));
      (IsInt32(m) ==> r == Returns([LiteralParticle(a), TagParticle(k).(minWidth := m)])) &&
      (!IsInt32(m) ==> r == Throws(OverflowException))
  {
    var w := IntText(m);
    var after := "," + (w + "}");
    var d := Data([LiteralParticle(a)], NewTag, k);
    var d1 := Data([LiteralParticle(a)], TagParticle(k), "");
    StepEndKey(d);
    assert after[0] == ',' && after[1..] == w + "}";
    RunStep(after, Tag, d, MinWidth, d1, true);
    RunWidthText(m, "}", MinWidth, d1);
    var d2 := d1.(buffer := w);
    StepKeep(MinWidth, '}', d2);
    RunStep("}", MinWidth, d2, MinWidthClose, d2, true);
    assert "}"[1..] == "";
    ParseIntText(m);
    FinishCloseMin(d2);
    assert [LiteralParticle(a)] + [TagParticle(k).(minWidth := m)] == [LiteralParticle(a), TagParticle(k).(minWidth := m)];
  }

  // ---------------------------------------------------------------------------
  // Shape of the result

  /** Literal particles and tags alternate, starting with a literal. */
  predicate Alternating(ps: seq<Particle>) {
    forall i :: 0 <= i < |ps| ==> (ps[i].isLiteral <==> i % 2 == 0)
  }

  /** The states in which the parser is outside any tag. */
  predicate Outside(st: State) {
    st in {Literal, LiteralOpenBrace, LiteralCloseBrace}
  }

  /** What holds between steps: the particles alternate, an even number of
      them outside a tag and an odd number inside, and the tag being built is
      not a literal. */
  predicate Shaped(st: State, d: Data) {
    Alternating(d.particles) &&
    (|d.particles| % 2 == 0 <==> Outside(st)) &&
    !d.working.isLiteral
  }

  lemma AlternatingAppend(ps: seq<Particle>, p: Particle)
    requires Alternating(ps) && (p.isLiteral <==> |ps| % 2 == 0)
    ensures Alternating(ps + [p])
  {
  }

  /** The actions that emit a tag. */
  predicate Closes(a: Action) {
    a in {CloseKey, CloseMin, CloseMax, CloseFormat}
  }

  /** The table enters a tag only by `OpenTag` and leaves one only by a
      closing action. */
  lemma TableShape(st: State, c: char, bufferEmpty: bool)
    ensures var t := Next(st, c, bufferEmpty);
      (t.action in {Keep, Reject, EndKey, EndMin, EndMax} ==> (Outside(t.next) <==> Outside(st))) &&
      (t.action == OpenTag ==> Outside(st) && !Outside(t.next)) &&
      (Closes(t.action) ==> !Outside(st) && Outside(t.next)) &&
      t.action != EmitLiteral
  {
  }

  /** What each action does to the particles and the tag being built. */
  lemma ApplyParticles(a: Action, d: Data)
    requires Apply(a, d).Returns?
    ensures var d2 := Apply(a, d).value;
      (a in {Keep, Reject, EndKey, EndMin, EndMax} ==> d2.particles == d.particles && d2.working.isLiteral == d.working.isLiteral) &&
      (a == OpenTag ==> d2.particles == d.particles + [LiteralParticle(d.buffer)] && !d2.working.isLiteral) &&
      (Closes(a) ==> (|d2.particles| == |d.particles| + 1 && d2.particles[..|d.particles|] == d.particles &&
                      d2.particles[|d.particles|].isLiteral == d.working.isLiteral &&
                      d2.working.isLiteral == d.working.isLiteral)) &&
      (a == EmitLiteral ==> d2.particles == d.particles + [LiteralParticle(d.buffer)])
  {
  }

  /** Each step keeps the shape. */
  lemma StepShaped(st: State, c: char, d: Data)
    requires Shaped(st, d)
    requires Step(st, c, d).Returns?
    ensures Shaped(Step(st, c, d).value.0, Step(st, c, d).value.1)
  {
    var t := Next(st, c, |d.buffer| == 0);
    var d1 := if t.add then d.(buffer := d.buffer + [c]) else d;
    assert Apply(t.action, d1).Returns?;
    var d2 := Apply(t.action, d1).value;
    assert Step(st, c, d).value == (t.next, d2, t.consume);
    TableShape(st, c, |d.buffer| == 0);
    ApplyParticles(t.action, d1);
    if t.action == OpenTag {
      AlternatingAppend(d1.particles, LiteralParticle(d1.buffer));
    } else if Closes(t.action) {
      var p := d2.particles[|d1.particles|];
      assert d2.particles == d1.particles + [p];
      AlternatingAppend(d1.particles, p);
    }
  }

  /** The end of the input keeps the shape, and leaves at least one particle. */
  lemma FinishShaped(st: State, d: Data)
    requires Shaped(st, d)
    requires Finish(st, d).Returns?
    ensures Alternating(Finish(st, d).value) && |Finish(st, d).value| > 0
  {
    var a := Terminal(st);
    var d2 := Apply(a, d).value;
    ApplyParticles(a, d);
    if a == EmitLiteral {
      AlternatingAppend(d.particles, LiteralParticle(d.buffer));
    } else {
      var p := d2.particles[|d.particles|];
      assert d2.particles == d.particles + [p];
      AlternatingAppend(d.particles, p);
    }
  }

  lemma {:induction false} RunShaped(rest: string, st: State, d: Data)
    requires Shaped(st, d)
    requires Run(rest, st, d).Returns?
    ensures Alternating(Run(rest, st, d).value) && |Run(rest, st, d).value| > 0
    decreases |rest|, Rank(st)
  {
    if |rest| == 0 {
      FinishShaped(st, d);
    } else {
      StepShaped(st, rest[0], d);
      var (st1, d1, consumed) := Step(st, rest[0], d).value;
      if consumed {
        RunShaped(rest[1..], st1, d1);
      } else {
        RunShaped(rest, st1, d1);
      }
    }
  }

  /** A parsed template is a non-empty alternation of literal text and tags,
      starting with literal text. */
  lemma ParseAlternates(template: string)
    requires Parse(template).Returns?
    ensures Alternating(Parse(template).value) && |Parse(template).value| > 0
  {
    RunShaped(template, Literal, Start);
  }

  // ---------------------------------------------------------------------------
  // Formatting

  function Abs(n: int): nat { if n < 0 then -n else n }
  function Max(a: int, b: int): int { if a < b then b else a }
  function Min(a: int, b: int): int { if a < b then a else b }

  function Spaces(n: nat): (r: string)
    ensures |r| == n && forall i :: 0 <= i < n ==> r[i] == ' '
  {
    seq(n, _ => ' ')
  }

  /** The width of a formatted tag: at least the minimum width's magnitude,
      and at most the maximum width's when there is one. */
  function Width(len: nat, minWidth: int, maxWidth: Option<int>): nat {
    var w := Max(len, Abs(minWidth));
    if maxWidth.None? then w else Min(w, Abs(maxWidth.value))
  }

  /** The part of the text a maximum width keeps: its end when the maximum is
      negative, its start otherwise. */
  function Kept(s: string, maxWidth: Option<int>): (r: string)
    ensures |r| <= |s|
  {
    if maxWidth.None? then s
    else
      var k := Min(|s|, Abs(maxWidth.value));
      if maxWidth.value < 0 then s[|s| - k..] else s[..k]
  }

  /** Text padded with spaces to a width, on the left or on the right. */
  function Padded(body: string, width: nat, left: bool): (r: string)
    requires |body| <= width
    ensures |r| == width
  {
    if left then Spaces(width - |body|) + body else body + Spaces(width - |body|)
  }

  /** The padding and cutting amounts of `Format` for a text of length
      `len`: the padding is what the minimum width asks for, cleared when
      negative if there is a maximum width; the cut is what exceeds the
      maximum width; when both are positive the smaller is traded against the
      larger. */
  function Amounts(len: nat, minWidth: int, maxWidth: Option<int>): (int, int) {
    var pad0 := if minWidth > 0 then minWidth - len else -minWidth - len;
    var pad1 := if maxWidth.Some? && pad0 < 0 then 0 else pad0;
    var cut0 :=
      if maxWidth.None? then 0
      else if maxWidth.value < 0 then len + pad1 + maxWidth.value
      else len + pad1 - maxWidth.value;
    if cut0 > 0 && pad1 > 0 then
      if cut0 > pad1 then (0, cut0 - pad1) else (pad1 - cut0, 0)
    else (pad1, cut0)
  }

  /** The amounts cut exactly what `Kept` drops and pad the rest of the
      width. */
  lemma AmountsSpec(len: nat, minWidth: int, maxWidth: Option<int>)
    ensures var (pad, cut) := Amounts(len, minWidth, maxWidth);
      var k := if maxWidth.None? then len else Min(len, Abs(maxWidth.value));
      cut <= len &&
      (if cut > 0 then len - cut else len) == k &&
      (if pad > 0 then pad else 0) == Width(len, minWidth, maxWidth) - k
  {
  }

  /** The pad-and-cut step of `Format` for one tag: pad with spaces on the
      left when the minimum width is positive, on the right otherwise; cut
      from the left when the maximum width is negative, from the right
      otherwise. */
  function FormatTag(s: string, minWidth: int, maxWidth: Option<int>): (r: string) {
    var amounts := Amounts(|s|, minWidth, maxWidth);
    AmountsSpec(|s|, minWidth, maxWidth);
    Pad(Cut(s, amounts.1, maxWidth.Some? && maxWidth.value < 0), amounts.0, minWidth > 0)
  }

  /** Dropping `cut` characters, when positive, from the left or the right. */
  function Cut(s: string, cut: int, cutLeft: bool): (r: string)
    requires cut <= |s|
  {
    if cut <= 0 then s else if cutLeft then s[cut..] else s[..|s| - cut]
  }

  /** Adding `pad` spaces, when positive, on the left or the right. */
  function Pad(body: string, pad: int, padLeft: bool): (r: string) {
    (if padLeft && pad > 0 then Spaces(pad) else "") + body + (if !padLeft && pad > 0 then Spaces(pad) else "")
  }

  /** The cut keeps exactly `Kept`. */
  lemma FormatTagBody(s: string, minWidth: int, maxWidth: Option<int>)
    ensures Amounts(|s|, minWidth, maxWidth).1 <= |s|
    ensures Cut(s, Amounts(|s|, minWidth, maxWidth).1, maxWidth.Some? && maxWidth.value < 0) == Kept(s, maxWidth)
  {
    AmountsSpec(|s|, minWidth, maxWidth);
  }

  /** The padding fills the width left over by the kept part. */
  lemma FormatTagFill(s: string, minWidth: int, maxWidth: Option<int>)
    ensures var pad := Amounts(|s|, minWidth, maxWidth).0;
      |Kept(s, maxWidth)| + (if pad > 0 then pad else 0) == Width(|s|, minWidth, maxWidth)
  {
    AmountsSpec(|s|, minWidth, maxWidth);
  }

  /** Padding by a count is padding to the width it reaches. */
  lemma PadPadded(body: string, pad: int, padLeft: bool)
    ensures Pad(body, pad, padLeft) == Padded(body, |body| + (if pad > 0 then pad else 0), padLeft)
  {
    if pad > 0 {
      if padLeft {
        assert Pad(body, pad, padLeft) == Spaces(pad) + body + "";
      } else {
        assert Pad(body, pad, padLeft) == "" + body + Spaces(pad);
      }
    } else {
      assert Spaces(0) == "";
      if padLeft {
        assert Padded(body, |body|, padLeft) == "" + body;
      } else {
        assert Padded(body, |body|, padLeft) == body + "";
      }
      assert Pad(body, pad, padLeft) == "" + body + "";
    }
  }

  /** A formatted tag is the kept part of the text padded to the tag's
      width. */
  lemma FormatTagShape(s: string, minWidth: int, maxWidth: Option<int>)
    ensures FormatTag(s, minWidth, maxWidth) == Padded(Kept(s, maxWidth), Width(|s|, minWidth, maxWidth), minWidth > 0)
  {
    FormatTagBody(s, minWidth, maxWidth);
    FormatTagFill(s, minWidth, maxWidth);
    PadPadded(Kept(s, maxWidth), Amounts(|s|, minWidth, maxWidth).0, minWidth > 0);
  }

  /** A formatted tag is the kept part of the text padded to the tag's width:
      at least the minimum width's magnitude, at most the maximum width's. */
  lemma FormatTagSpec(s: string, minWidth: int, maxWidth: Option<int>)
    ensures |FormatTag(s, minWidth, maxWidth)| == Width(|s|, minWidth, maxWidth)
    ensures maxWidth.Some? ==> |FormatTag(s, minWidth, maxWidth)| <= Abs(maxWidth.value)
    ensures maxWidth.None? ==> |FormatTag(s, minWidth, maxWidth)| == Max(|s|, Abs(minWidth))
    ensures FormatTag(s, minWidth, maxWidth) == Padded(Kept(s, maxWidth), Width(|s|, minWidth, maxWidth), minWidth > 0)
  {
    FormatTagShape(s, minWidth, maxWidth);
  }

  /** The text of a tag: the argument resolver's value formatted with the
      tag's format, or empty for null. */
  type Resolver = (string, Option<string>) -> string

  /** `Format`: literal particles as they are, tags padded and cut. */
  function Render(ps: seq<Particle>, resolve: Resolver): (r: string)
    ensures (forall i :: 0 <= i < |ps| ==> ps[i].isLiteral) ==> |r| == Lengths(ps)
  {
    if |ps| == 0 then ""
    else
      var p := ps[0];
      (if p.isLiteral then p.value else FormatTag(resolve(p.value, p.format), p.minWidth, p.maxWidth))
        + Render(ps[1..], resolve)
  }

  function Lengths(ps: seq<Particle>): nat {
    if |ps| == 0 then 0 else |ps[0].value| + Lengths(ps[1..])
  }

  /** Formatting an escaped template gives back the original text. */
  lemma RenderEscaped(s: string, resolve: Resolver)
    ensures Parse(Escape(s)).Returns?
    ensures Render(Parse(Escape(s)).value, resolve) == s
  {
    ParseEscaped(s);
    assert Render([LiteralParticle(s)], resolve) == s + Render([], resolve);
  }

  /** A tag without widths is its text as it is. */
  lemma FormatTagPlain(v: string)
    ensures FormatTag(v, 0, None) == v
  {
    FormatTagSpec(v, 0, None);
    assert Spaces(0) == "";
    assert v + "" == v;
  }

  /** Formatting renders particle by particle. */
  lemma RenderCons(p: Particle, ps: seq<Particle>, resolve: Resolver)
    ensures Render([p] + ps, resolve) ==
      (if p.isLiteral then p.value else FormatTag(resolve(p.value, p.format), p.minWidth, p.maxWidth)) + Render(ps, resolve)
  {
    assert ([p] + ps)[0] == p && ([p] + ps)[1..] == ps;
  }

  /** Formatting a plain tag between escaped texts puts the tag's text,
      unpadded and uncut, between the two texts. */
  lemma RenderTag(a: string, k: string, b: string, resolve: Resolver)
    requires PlainKey(k)
    requires |b| > 0 ==> b[0] != '}'
    ensures Parse(Escape(a) + "{" + k + "}" + Escape(b)).Returns?
    ensures Render(Parse(Escape(a) + "{" + k + "}" + Escape(b)).value, resolve) == a + resolve(k, None) + b
  {
    ParseTag(a, k, b);
    var v := resolve(k, None);
    FormatTagPlain(v);
    var last := if |b| == 0 then [] else [LiteralParticle(b)];
    assert Render(last, resolve) == b by {
      if |b| > 0 {
        RenderCons(LiteralParticle(b), [], resolve);
      }
    }
    RenderCons(TagParticle(k), last, resolve);
    RenderCons(LiteralParticle(a), [TagParticle(k)] + last, resolve);
    assert [LiteralParticle(a)] + ([TagParticle(k)] + last) == Parse(Escape(a) + "{" + k + "}" + Escape(b)).value;
  }
}
