/** Escaping on both sides of the pipe (renderer.go and render-server.js.tpl) and
    what a browser reads back from the markup. A string is a sequence of Unicode
    scalar values. */
module Markup {
  import opened Wrappers

  function Entity(c: char): (e: string)
    ensures e != []
  {
    match c
    case '&' => "&amp;"
    case '<' => "&lt;"
    case '>' => "&gt;"
    case '"' => "&quot;"
    case '\'' => "&#039;"
    case _ => [c]
  }

  function Escape(text: string): string {
    if text == [] then [] else Entity(text[0]) + Escape(text[1..])
  }

  /** The Go side: one pass over the text. */
  method EscapeHTML(text: string) returns (buf: string)
    ensures buf == Escape(text)
  {
    buf := [];
    for i := 0 to |text|
      invariant buf + Escape(text[i..]) == Escape(text)
    {
      EscapeStep(text, i);
      assert buf + (Entity(text[i]) + Escape(text[i + 1..])) == buf + Entity(text[i]) + Escape(text[i + 1..]);
      buf := buf + Entity(text[i]);
    }
    assert text[|text|..] == [];
  }

  lemma EscapeStep(text: string, i: nat)
    requires i < |text|
    ensures Escape(text[i..]) == Entity(text[i]) + Escape(text[i + 1..])
  {
    assert text[i..][1..] == text[i + 1..];
  }

  /** text.replace(/c/g, value) in JavaScript. */
  function Replace(text: string, c: char, value: string): string {
    if text == [] then []
    else (if text[0] == c then value else [text[0]]) + Replace(text[1..], c, value)
  }

  /** The Node side: five passes, one replacement each. */
  function EscapeChained(text: string): string {
    LaterPasses(Replace(text, '&', Entity('&')))
  }

  function LaterPasses(text: string): string {
    QuotePasses(Replace(Replace(text, '<', Entity('<')), '>', Entity('>')))
  }

  function QuotePasses(text: string): string {
    Replace(Replace(text, '"', Entity('"')), '\'', Entity('\''))
  }

  lemma {:induction false} ReplaceConcat(s: string, t: string, c: char, value: string)
    ensures Replace(s + t, c, value) == Replace(s, c, value) + Replace(t, c, value)
  {
    if s == [] {
      assert s + t == t;
    } else {
      assert (s + t)[1..] == s[1..] + t;
      ReplaceConcat(s[1..], t, c, value);
    }
  }

  lemma {:induction false} ReplaceAbsent(s: string, c: char, value: string)
    requires c !in s
    ensures Replace(s, c, value) == s
  {
    if s == [] {
    } else {
      ReplaceAbsent(s[1..], c, value);
    }
  }

  lemma ChainedConcat(s: string, t: string)
    ensures EscapeChained(s + t) == EscapeChained(s) + EscapeChained(t)
  {
    ReplaceConcat(s, t, '&', Entity('&'));
    var s1, t1 := Replace(s, '&', Entity('&')), Replace(t, '&', Entity('&'));
    ReplaceConcat(s1, t1, '<', Entity('<'));
    var s2, t2 := Replace(s1, '<', Entity('<')), Replace(t1, '<', Entity('<'));
    ReplaceConcat(s2, t2, '>', Entity('>'));
    var s3, t3 := Replace(s2, '>', Entity('>')), Replace(t2, '>', Entity('>'));
    ReplaceConcat(s3, t3, '"', Entity('"'));
    var s4, t4 := Replace(s3, '"', Entity('"')), Replace(t3, '"', Entity('"'));
    ReplaceConcat(s4, t4, '\'', Entity('\''));
  }

  lemma ReplaceOne(x: char, c: char, value: string)
    ensures Replace([x], c, value) == if x == c then value else [x]
  {
    assert Replace([x][1..], c, value) == [];
  }

  lemma EntityIsPlain(c: char)
    requires c in {'&', '<', '>', '"', '\''}
    ensures forall d | d in {'<', '>', '"', '\''} :: d !in Entity(c)
  {}

  lemma QuotePassesKeep(e: string)
    requires '"' !in e && '\'' !in e
    ensures QuotePasses(e) == e
  {
    ReplaceAbsent(e, '"', Entity('"'));
    ReplaceAbsent(e, '\'', Entity('\''));
  }

  lemma LaterPassesKeep(e: string)
    requires '<' !in e && '>' !in e && '"' !in e && '\'' !in e
    ensures LaterPasses(e) == e
  {
    ReplaceAbsent(e, '<', Entity('<'));
    ReplaceAbsent(e, '>', Entity('>'));
    QuotePassesKeep(e);
  }

  lemma QuotePassesOne(c: char)
    ensures QuotePasses([c]) == if c == '"' || c == '\'' then Entity(c) else [c]
  {
    ReplaceOne(c, '"', Entity('"'));
    ReplaceOne(c, '\'', Entity('\''));
    if c == '"' {
      EntityIsPlain(c);
      ReplaceAbsent(Entity(c), '\'', Entity('\''));
    }
  }

  lemma LaterPassesOne(c: char)
    ensures LaterPasses([c]) == if c == '&' then [c] else Entity(c)
  {
    ReplaceOne(c, '<', Entity('<'));
    ReplaceOne(c, '>', Entity('>'));
    QuotePassesOne(c);
    if c == '<' || c == '>' {
      EntityIsPlain(c);
      ReplaceAbsent(Entity(c), '>', Entity('>'));
      QuotePassesKeep(Entity(c));
    }
  }

  /** No pass disturbs what an earlier one wrote. */
  lemma ChainedChar(c: char)
    ensures EscapeChained([c]) == Entity(c)
  {
    ReplaceOne(c, '&', Entity('&'));
    LaterPassesOne(c);
    if c == '&' {
      EntityIsPlain(c);
      LaterPassesKeep(Entity(c));
    }
  }

  /** Both sides escape every string alike. */
  lemma {:induction false} EscapersAgree(text: string)
    ensures EscapeChained(text) == Escape(text)
  {
    if text == [] {
    } else {
      assert text == [text[0]] + text[1..];
      ChainedConcat([text[0]], text[1..]);
      ChainedChar(text[0]);
      EscapersAgree(text[1..]);
    }
  }

  // ----- Reading it back -----

  /** Newline normalisation, before the tokenizer sees the input. */
  function Normalize(input: string): string {
    if input == [] then []
    else if input[0] == '\r' then
      ['\n'] + Normalize(if |input| > 1 && input[1] == '\n' then input[2..] else input[1..])
    else [input[0]] + Normalize(input[1..])
  }

  /** The attribute value (double-quoted) state, section 13.2.5.36 of the WHATWG
      HTML standard: everything up to the closing quote, and what follows it. */
  function ScanValue(input: string): Option<(string, string)> {
    if input == [] then None
    else if input[0] == '"' then Some(([], input[1..]))
    else
      match ScanValue(input[1..])
      case None => None
      case Some((value, rest)) => Some(([input[0]] + value, rest))
  }

  /** Character references replaced. An ampersand that starts none of the five
      references the escapers write is out of this model's reach. */
  function Decode(value: string): Option<string> {
    if value == [] then Some([])
    else if value[0] != '&' then Prepend(if value[0] == '\0' then '\U{FFFD}' else value[0], Decode(value[1..]))
    else if "&amp;" <= value then Prepend('&', Decode(value[5..]))
    else if "&lt;" <= value then Prepend('<', Decode(value[4..]))
    else if "&gt;" <= value then Prepend('>', Decode(value[4..]))
    else if "&quot;" <= value then Prepend('"', Decode(value[6..]))
    else if "&#039;" <= value then Prepend('\'', Decode(value[6..]))
    else None
  }

  function Prepend(c: char, rest: Option<string>): Option<string> {
    match rest
    case None => None
    case Some(s) => Some([c] + s)
  }

  /** Strips `prefix`, if the input starts with it. */
  function After(input: string, prefix: string): Option<string> {
    if prefix <= input then Some(input[|prefix|..]) else None
  }

  datatype Island = Island(component: string, props: string)

  const ISLAND_ATTR := "<div data-ssr-island=\""
  const PROPS_ATTR := " data-ssr-props=\""

  function ReadAttr(input: string, prefix: string): Option<(string, string)> {
    match After(input, prefix)
    case None => None
    case Some(rest) =>
      match ScanValue(rest)
      case None => None
      case Some((raw, rest')) =>
        match Decode(raw)
        case None => None
        case Some(value) => Some((value, rest'))
  }

  /** Two attributes' values, and what follows them. */
  function ReadPair(input: string, first: string, second: string): Option<(Island, string)> {
    match ReadAttr(input, first)
    case None => None
    case Some((component, rest)) =>
      match ReadAttr(rest, second)
      case None => None
      case Some((props, rest')) => Some((Island(component, props), rest'))
  }

  /** The island at the head of the markup, as the client runtime finds it. */
  function ReadIsland(html: string): Option<Island> {
    match ReadPair(Normalize(html), ISLAND_ATTR, PROPS_ATTR)
    case None => None
    case Some((island, _)) => Some(island)
  }

  /** What follows its two attributes. */
  function ReadRest(html: string): Option<string> {
    match ReadPair(Normalize(html), ISLAND_ATTR, PROPS_ATTR)
    case None => None
    case Some((_, rest)) => Some(rest)
  }

  const LAZY_ATTR := " data-ssr-lazy=\""

  /** The island asks to be loaded late. */
  predicate IsLazy(html: string) {
    var rest := ReadRest(html);
    rest.Some? && ReadAttr(rest.value, LAZY_ATTR).Some? && ReadAttr(rest.value, LAZY_ATTR).value.0 == "true"
  }

  const CLOSING := "</div>"

  /** The markup inside the island, if it has no further attribute. */
  function Content(html: string): Option<string> {
    match ReadRest(html)
    case None => None
    case Some(rest) => ContentIn(rest)
  }

  function ContentIn(rest: string): Option<string> {
    if ">" <= rest && |rest| > |CLOSING| && rest[|rest| - |CLOSING|..] == CLOSING
    then Some(rest[1..|rest| - |CLOSING|]) else None
  }

  function Attr(prefix: string, raw: string): string {
    prefix + raw + "\""
  }

  /** The opening both sides write, up to the end of the props attribute. */
  function Opening(component: string, props: string): string {
    Attr(ISLAND_ATTR, component) + Attr(PROPS_ATTR, Escape(props))
  }

  /** No control characters, as in compact JSON text (section 7 of RFC 8259). */
  ghost predicate Printable(s: string) {
    forall i | 0 <= i < |s| :: s[i] >= ' '
  }

  lemma {:induction false} NormalizePrintable(s: string, t: string)
    requires Printable(s)
    ensures Normalize(s + t) == s + Normalize(t)
  {
    if s == [] {
      assert s + t == t;
    } else {
      assert (s + t)[1..] == s[1..] + t;
      NormalizePrintable(s[1..], t);
    }
  }

  lemma {:induction false} ScanStops(value: string, rest: string)
    requires '"' !in value
    ensures ScanValue(value + "\"" + rest) == Some((value, rest))
  {
    var input := value + "\"" + rest;
    if value == [] {
      assert input == "\"" + rest;
    } else {
      assert input[0] == value[0] && value[0] in value;
      assert input[1..] == value[1..] + "\"" + rest;
      ScanStops(value[1..], rest);
      assert [value[0]] + value[1..] == value;
    }
  }

  lemma EntityIsSafe(c: char)
    requires c >= ' '
    ensures '"' !in Entity(c) && Printable(Entity(c))
  {}

  lemma {:induction false} EscapedIsSafe(s: string)
    requires Printable(s)
    ensures '"' !in Escape(s) && Printable(Escape(s))
  {
    if s == [] {
    } else {
      EntityIsSafe(s[0]);
      EscapedIsSafe(s[1..]);
      PrintableConcat(Entity(s[0]), Escape(s[1..]));
    }
  }

  lemma DecodeEntity(c: char, rest: string)
    requires c >= ' '
    ensures Decode(Entity(c) + rest) == Prepend(c, Decode(rest))
  {
    var e := Entity(c);
    var value := e + rest;
    assert e <= value && value[|e|..] == rest && value[0] == e[0];
    if c in {'&', '<', '>', '"', '\''} {
      assert value[1] == e[1];
      assert value[1] != 'a' ==> !("&amp;" <= value);
      assert value[1] != 'l' ==> !("&lt;" <= value);
      assert value[1] != 'g' ==> !("&gt;" <= value);
      assert value[1] != 'q' ==> !("&quot;" <= value);
    }
  }

  lemma {:induction false} DecodeEscaped(s: string)
    requires Printable(s)
    ensures Decode(Escape(s)) == Some(s)
  {
    if s == [] {
    } else {
      DecodeEscaped(s[1..]);
      DecodeEntity(s[0], Escape(s[1..]));
      assert s == [s[0]] + s[1..];
    }
  }

  lemma {:induction false} DecodePlain(s: string)
    requires Printable(s) && '&' !in s
    ensures Decode(s) == Some(s)
  {
    if s == [] {
    } else {
      DecodePlain(s[1..]);
      assert [s[0]] + s[1..] == s;
    }
  }

  lemma ReadOneAttr(prefix: string, raw: string, rest: string)
    requires '"' !in raw && Decode(raw).Some?
    ensures ReadAttr(Attr(prefix, raw) + rest, prefix) == Some((Decode(raw).value, rest))
  {
    var input := Attr(prefix, raw) + rest;
    assert input == prefix + (raw + "\"" + rest);
    assert input[|prefix|..] == raw + "\"" + rest;
    ScanStops(raw, rest);
  }

  lemma ReadTwoAttrs(first: string, name: string, second: string, raw: string, tail: string)
    requires '"' !in name && Decode(name).Some? && '"' !in raw && Decode(raw).Some?
    ensures ReadPair(Attr(first, name) + Attr(second, raw) + tail, first, second)
         == Some((Island(Decode(name).value, Decode(raw).value), tail))
  {
    Regroup(Attr(first, name), Attr(second, raw), tail);
    ReadOneAttr(first, name, Attr(second, raw) + tail);
    ReadOneAttr(second, raw, tail);
  }

  lemma Regroup(first: string, second: string, third: string)
    ensures first + second + third == first + (second + third)
  {}

  lemma NormalizeOpening(component: string, props: string, tail: string)
    requires Printable(component) && Printable(props)
    ensures Normalize(Opening(component, props) + tail) == Opening(component, props) + Normalize(tail)
  {
    EscapedIsSafe(props);
    PrintableAttr(ISLAND_ATTR, component);
    PrintableAttr(PROPS_ATTR, Escape(props));
    PrintableConcat(Attr(ISLAND_ATTR, component), Attr(PROPS_ATTR, Escape(props)));
    NormalizePrintable(Opening(component, props), tail);
  }

  lemma PrintableConcat(s: string, t: string)
    requires Printable(s) && Printable(t)
    ensures Printable(s + t)
  {}

  lemma PrintableAttr(prefix: string, raw: string)
    requires Printable(prefix) && Printable(raw)
    ensures Printable(Attr(prefix, raw))
  {
    PrintableConcat(prefix, raw);
    PrintableConcat(prefix + raw, "\"");
  }

  /** What follows the opening does not matter: name and props read back. */
  lemma ReadBack(component: string, props: string, tail: string)
    requires Printable(component) && Printable(props) && '"' !in component && '&' !in component
    ensures ReadIsland(Opening(component, props) + tail) == Some(Island(component, props))
    ensures ReadRest(Opening(component, props) + tail) == Some(Normalize(tail))
  {
    NormalizeOpening(component, props, tail);
    EscapedIsSafe(props);
    DecodePlain(component);
    DecodeEscaped(props);
    ReadTwoAttrs(ISLAND_ATTR, component, PROPS_ATTR, Escape(props), Normalize(tail));
  }

  /** Where `t` does not go on with a line end that `s` began, the two are normalised
      apart. */
  lemma {:induction false} NormalizeConcat(s: string, t: string)
    requires t != [] ==> t[0] != '\n'
    ensures Normalize(s + t) == Normalize(s) + Normalize(t)
    decreases |s|
  {
    if s == [] {
      assert s + t == t;
    } else if s[0] != '\r' {
      assert (s + t)[0] == s[0] && (s + t)[1..] == s[1..] + t;
      NormalizeConcat(s[1..], t);
    } else {
      LineEndConcat(s, t);
      NormalizeConcat(AfterLineEnd(s), t);
    }
  }

  function AfterLineEnd(s: string): string
    requires s != []
  {
    if |s| > 1 && s[1] == '\n' then s[2..] else s[1..]
  }

  lemma LineEndConcat(s: string, t: string)
    requires s != [] && s[0] == '\r' && (t != [] ==> t[0] != '\n')
    ensures Normalize(s) == ['\n'] + Normalize(AfterLineEnd(s))
    ensures Normalize(s + t) == ['\n'] + Normalize(AfterLineEnd(s) + t)
  {
    assert (s + t)[0] == '\r' && AfterLineEnd(s + t) == AfterLineEnd(s) + t;
  }

  lemma NormalizeTag(tag: string)
    requires Printable(tag)
    ensures Normalize(tag) == tag
  {
    NormalizePrintable(tag, "");
    assert tag + "" == tag && Normalize("") == "";
  }

  lemma ContentInTail(inner: string)
    ensures ContentIn(Normalize(">" + inner + CLOSING)) == Some(Normalize(inner))
  {
    NormalizeConcat(">" + inner, CLOSING);
    NormalizePrintable(">", inner);
    NormalizeTag(CLOSING);
    ContentBetween(Normalize(inner));
  }

  lemma ContentBetween(inner: string)
    ensures ContentIn(">" + inner + CLOSING) == Some(inner)
  {
    var rest := ">" + inner + CLOSING;
    assert rest[|rest| - |CLOSING|..] == CLOSING && rest[1..|rest| - |CLOSING|] == inner;
  }

  /** The markup put inside an island is what the browser finds there. */
  lemma ContentReadsBack(component: string, props: string, inner: string)
    requires Printable(component) && Printable(props) && '"' !in component && '&' !in component
    ensures Content(Opening(component, props) + (">" + inner + CLOSING)) == Some(Normalize(inner))
  {
    ReadBack(component, props, ">" + inner + CLOSING);
    ContentInTail(inner);
  }

  /** What ends an empty island. */
  function EmptyTail(lazy: bool): string {
    if lazy then Attr(LAZY_ATTR, "true") + "></div>" else "></div>"
  }

  lemma EmptyTailIsPlain(lazy: bool)
    ensures Normalize(EmptyTail(lazy)) == EmptyTail(lazy)
  {
    var tail := EmptyTail(lazy);
    PrintableAttr(LAZY_ATTR, "true");
    NormalizeTag(tail);
  }

  lemma TailSaysLazy(lazy: bool)
    ensures var read := ReadAttr(EmptyTail(lazy), LAZY_ATTR); lazy == (read.Some? && read.value.0 == "true")
  {
    if lazy {
      DecodePlain("true");
      ReadOneAttr(LAZY_ATTR, "true", "></div>");
    } else {
      assert EmptyTail(lazy)[0] != LAZY_ATTR[0];
    }
  }

  /** An island is lazy exactly if its third attribute says so. */
  lemma LazyReadsBack(component: string, props: string, lazy: bool)
    requires Printable(component) && Printable(props) && '"' !in component && '&' !in component
    ensures IsLazy(Opening(component, props) + EmptyTail(lazy)) == lazy
  {
    ReadBack(component, props, EmptyTail(lazy));
    EmptyTailIsPlain(lazy);
    TailSaysLazy(lazy);
  }

  lemma {:induction false} ScanStopsEarly(value: string, rest: string)
    requires '"' in value
    ensures ScanValue(value + rest).Some? && ScanValue(value + rest).value.0 < value
  {
    var input := value + rest;
    assert input[0] == value[0] && input[1..] == value[1..] + rest;
    if value[0] != '"' {
      ScanStopsEarly(value[1..], rest);
      var short := ScanValue(value[1..] + rest).value.0;
      assert [value[0]] + short < [value[0]] + value[1..] == value;
    }
  }

  lemma ReadShortAttr(prefix: string, name: string, rest: string)
    requires Printable(name) && '&' !in name && '"' in name
    ensures ReadAttr(Attr(prefix, name) + rest, prefix).Some?
    ensures ReadAttr(Attr(prefix, name) + rest, prefix).value.0 < name
  {
    var input := Attr(prefix, name) + rest;
    assert input == prefix + (name + ("\"" + rest)) && input[|prefix|..] == name + ("\"" + rest);
    ScanStopsEarly(name, "\"" + rest);
    DecodePlain(ScanValue(name + ("\"" + rest)).value.0);
  }

  /** A component name without ampersands reads back exactly when it has no
      quote; Go and Node both write it unescaped. */
  lemma NameReadsBack(component: string, props: string, tail: string)
    requires Printable(component) && Printable(props) && '&' !in component
    ensures (ReadIsland(Opening(component, props) + tail) == Some(Island(component, props))) <==> '"' !in component
  {
    if '"' !in component {
      ReadBack(component, props, tail);
    } else {
      NormalizeOpening(component, props, tail);
      var rest := Attr(PROPS_ATTR, Escape(props)) + Normalize(tail);
      ReadShortAttr(ISLAND_ATTR, component, rest);
      assert Attr(ISLAND_ATTR, component) + rest == Opening(component, props) + Normalize(tail);
    }
  }
}
