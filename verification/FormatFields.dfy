// What a format string means: the grammar of its pieces, written down without
// the scan, and the proof that the scan reads every rendered list of pieces as
// what the pieces mean, and accepts nothing else.
module FormatFields {
  import opened Words
  import opened Wrappers
  import opened Digits
  import opened DecimalText
  import opened FormatString
  import opened FormatText

  // A character of text, or a field that names its argument in one of the three
  // ways, with specifiers or without.
  datatype Piece =
    | Plain(ch: char)
    | Next(specs: Option<string>)
    | Index(n: nat, specs: Option<string>)
    | Name(name: string, specs: Option<string>)

  // What is printed: a character, or an argument.
  datatype Item = Char(ch: char) | Argument(id: int, kind: Kind, specs: Option<string>)

  datatype Meaning = Meaning(items: seq<Item>, end: End)

  predicate InName(c: char) {
    IsNameStart(c) || IsDigit(c)
  }

  predicate IsName(name: string) {
    name != "" && IsNameStart(name[0]) && forall k :: 0 <= k < |name| ==> InName(name[k])
  }

  predicate WellFormed(pieces: seq<Piece>) {
    forall k :: 0 <= k < |pieces| ==> pieces[k].Name? ==> IsName(pieces[k].name)
  }

  function IdText(p: Piece): string {
    match p
    case Index(n, _) => Decimal(n)
    case Name(name, _) => name
    case _ => ""
  }

  function SpecsText(specs: Option<string>): string {
    match specs
    case None => "}"
    case Some(text) => ":" + text + "}"
  }

  function Render(p: Piece): string {
    if p.Plain? then (if IsBrace(p.ch) then [p.ch, p.ch] else [p.ch]) else "{" + IdText(p) + SpecsText(p.specs)
  }

  function RenderAll(pieces: seq<Piece>): string {
    if pieces == [] then "" else Render(pieces[0]) + RenderAll(pieces[1..])
  }

  // Which argument a field takes, and the counter afterwards.
  datatype Choice = Refused(error: Error) | Chosen(id: nat, kind: Kind, ids: int)

  ghost function Choose(c: Config, p: Piece, ids: int): Choice
    requires !p.Plain?
  {
    match p
    case Next(_) => if ids < 0 then Refused(CannotSwitchToAutomatic) else Chosen(ids, Automatic, ids + 1)
    case Index(n, _) =>
      if ids > 0 then Refused(CannotSwitchToManual) else Chosen(if n <= INT_MAX then n else INT_MAX, Manual, -1)
    case Name(name, _) => if name in c.named then Chosen(c.named[name], Named, ids) else Refused(ArgumentNotFound)
  }

  // The specifiers `text`, when `rest` follows the field: their parser may refuse
  // them, or read only a part.
  ghost function SpecsMean(c: Config, id: nat, kind: Kind, text: string, rest: string, ids: int): Meaning {
    match c.specs(id, text + "}" + rest, ids)
    case SpecsError(e) => Meaning([], Rejected(e))
    case SpecsParsed(length, ids') =>
      if length < |text| then Meaning([Argument(id, kind, Some(text[..length]))], Rejected(UnknownSpecifier))
      else Meaning([Argument(id, kind, Some(text))], Accepted(ids'))
  }

  ghost function FieldMeans(c: Config, p: Piece, rest: string, ids: int): Meaning
    requires !p.Plain?
  {
    match Choose(c, p, ids)
    case Refused(e) => Meaning([], Rejected(e))
    case Chosen(id, kind, ids') =>
      if id >= c.argCount then Meaning([], Rejected(ArgumentNotFound))
      else match p.specs
        case None => Meaning([Argument(id, kind, None)], Accepted(ids'))
        case Some(text) => SpecsMean(c, id, kind, text, rest, ids')
  }

  ghost function Means(c: Config, pieces: seq<Piece>, ids: int): Meaning
    decreases |pieces|
  {
    if pieces == [] then Meaning([], Accepted(ids))
    else
      var m := if pieces[0].Plain? then Meaning([Char(pieces[0].ch)], Accepted(ids))
               else FieldMeans(c, pieces[0], RenderAll(pieces[1..]), ids);
      match m.end
      case Rejected(_) => m
      case Accepted(ids') =>
        var after := Means(c, pieces[1..], ids');
        Meaning(m.items + after.items, after.end)
  }

  // The parser of specifiers stops at the brace after the text, or at some
  // character before it that is not one, whatever follows.
  ghost predicate StopsAt(c: Config, text: string) {
    forall id: int, rest: string, ids: int :: c.specs(id, text + "}" + rest, ids).SpecsParsed? ==>
      var n := c.specs(id, text + "}" + rest, ids).length; n == |text| || (n < |text| && text[n] != '}')
  }

  ghost predicate Contained(c: Config, pieces: seq<Piece>) {
    forall k :: 0 <= k < |pieces| && !pieces[k].Plain? && pieces[k].specs.Some? ==> StopsAt(c, pieces[k].specs.value)
  }

  function Chars(text: string): seq<Item> {
    seq(|text|, i requires 0 <= i < |text| => Char(text[i]))
  }

  // The items that a handler reported.
  ghost function Items(events: seq<Event>): seq<Item> {
    if events == [] then []
    else (match events[0]
          case Text(text) => Chars(text)
          case Field(id, kind) => [Argument(id, kind, None)]
          case SpecField(id, kind, specs) => [Argument(id, kind, Some(specs))]) + Items(events[1..])
  }

  lemma {:induction false} ItemsConcat(a: seq<Event>, b: seq<Event>)
    ensures Items(a + b) == Items(a) + Items(b)
  {
    if a == [] {
      assert a + b == b;
    } else {
      assert (a + b)[1..] == a[1..] + b;
      ItemsConcat(a[1..], b);
    }
  }

  lemma ItemsOfText(text: string)
    ensures Items(TextEvent(text)) == Chars(text)
  {
    if text != "" {
      assert TextEvent(text)[1..] == [];
    }
  }

  lemma ItemsAfter(text: string, events: seq<Event>, rest: seq<Event>)
    ensures Items(TextEvent(text) + events + rest) == Chars(text) + Items(events) + Items(rest)
  {
    ItemsConcat(TextEvent(text) + events, rest);
    ItemsConcat(TextEvent(text), events);
    ItemsOfText(text);
  }

  lemma {:induction false} DecimalHead(n: nat)
    ensures Decimal(n) != "" && IsDigit(Decimal(n)[0]) && (Decimal(n)[0] == '0' <==> n == 0)
  {
    if n >= 10 {
      DecimalHead(n / 10);
    }
  }

  lemma {:induction false} NameEnds(s: string, i: nat, p: nat)
    requires i <= p <= |s| && (forall k :: i <= k < p ==> InName(s[k])) && (p == |s| || !InName(s[p]))
    ensures NameEnd(s, i) == p
    decreases p - i
  {
    if i < p {
      NameEnds(s, i + 1, p);
    }
  }

  // `x` stands in s at i, and a field goes on after it.
  ghost predicate StandsAt(s: string, i: nat, x: string) {
    i + |x| < |s| && (s[i + |x|] == '}' || s[i + |x|] == ':') && forall k :: i <= k < i + |x| ==> s[k] == x[k - i]
  }

  lemma IndexReads(s: string, i: nat, n: nat)
    requires StandsAt(s, i, Decimal(n))
    ensures IsDigit(s[i]) && IndexEnd(s, i) == i + |Decimal(n)| && s[i..i + |Decimal(n)|] == Decimal(n)
    ensures ParsedInt(Decimal(n), INT_MAX) == if n <= INT_MAX then n else INT_MAX
  {
    hide ParsedInt;
    DecimalHead(n);
    DecimalSpells(n);
    ParseInvertsFormat(n, "", INT_MAX);
    if n > 0 {
      DigitsEndUnique(s, i, i + |Decimal(n)|);
    }
  }

  lemma NameReads(s: string, i: nat, name: string)
    requires StandsAt(s, i, name) && IsName(name)
    ensures IsNameStart(s[i]) && NameEnd(s, i + 1) == i + |name| && s[i..i + |name|] == name
  {
    NameEnds(s, i + 1, i + |name|);
  }

  // The argument is read as it was written.
  lemma ArgIdReads(c: Config, s: string, i: nat, p: Piece, ids: int)
    requires !p.Plain? && (p.Name? ==> IsName(p.name)) && StandsAt(s, i, IdText(p))
    ensures ArgIdAt(c, s, i, ids) == match Choose(c, p, ids)
                                     case Refused(error) => ArgError(error)
                                     case Chosen(id, kind, ids') => Arg(id, kind, i + |IdText(p)|, ids')
  {
    match p {
      case Next(_) => assert s[i] == '}' || s[i] == ':';
      case Index(n, _) => IndexArg(c, s, i, n, ids);
      case Name(name, _) => NameReads(s, i, name);
    }
  }

  lemma IndexArg(c: Config, s: string, i: nat, n: nat, ids: int)
    requires StandsAt(s, i, Decimal(n))
    ensures ArgIdAt(c, s, i, ids) == if ids > 0 then ArgError(CannotSwitchToManual)
                                     else Arg(if n <= INT_MAX then n else INT_MAX, Manual, i + |Decimal(n)|, -1)
  {
    assert s[i + |Decimal(n)|] == '}' || s[i + |Decimal(n)|] == ':';
    hide ParsedInt, IndexEnd, StandsAt, Decimal, NameEnd;
    IndexReads(s, i, n);
  }

  // The field ends at j, at once or after its specifiers, and `rest` follows.
  ghost predicate EndsAt(s: string, j: nat, specs: Option<string>, rest: string) {
    && j < |s|
    && match specs
       case None => s[j] == '}'
       case Some(text) => s[j] == ':' && s[j + 1..] == text + "}" + rest
  }

  lemma FieldStands(s: string, n: nat, p: Piece, rest: string)
    requires n <= |s| && s[n..] == Render(p) + rest && !p.Plain? && (p.Name? ==> IsName(p.name))
    ensures n + 1 < |s| && s[n] == '{' && s[n + 1] != '{'
    ensures StandsAt(s, n + 1, IdText(p)) && EndsAt(s, n + 1 + |IdText(p)|, p.specs, rest)
  {
    hide Render, SpecsText, IdText, StandsAt, EndsAt;
    RenderedField(p, rest);
    AfterPrefix(s, n, "{", IdText(p) + (SpecsText(p.specs) + rest));
    AfterPrefix(s, n + 1, IdText(p), SpecsText(p.specs) + rest);
    TailStands(s, n + 1, IdText(p), p.specs, rest);
    IdHead(p);
  }

  lemma TailStands(s: string, i: nat, x: string, specs: Option<string>, rest: string)
    requires i + |x| <= |s| && s[i + |x|..] == SpecsText(specs) + rest && forall k :: i <= k < i + |x| ==> s[k] == x[k - i]
    ensures StandsAt(s, i, x) && EndsAt(s, i + |x|, specs, rest)
    ensures x == "" ==> s[i] != '{'
  {
    match specs {
      case None => AfterPrefix(s, i + |x|, "}", rest);
      case Some(text) =>
        assert ":" + text + "}" + rest == ":" + (text + "}" + rest);
        AfterPrefix(s, i + |x|, ":", text + "}" + rest);
    }
  }

  lemma RenderedField(p: Piece, rest: string)
    requires !p.Plain?
    ensures Render(p) + rest == "{" + (IdText(p) + (SpecsText(p.specs) + rest))
  {
    hide IdText, SpecsText;
    var x, t := IdText(p), SpecsText(p.specs);
    assert "{" + x + t + rest == "{" + (x + (t + rest));
  }

  lemma IdHead(p: Piece)
    requires !p.Plain? && (p.Name? ==> IsName(p.name))
    ensures IdText(p) != "" ==> IdText(p)[0] != '{'
    ensures |Render(p)| == 1 + |IdText(p)| + if p.specs.None? then 1 else |p.specs.value| + 2
  {
    if p.Index? {
      DecimalHead(p.n);
    }
  }

  lemma AfterPrefix(s: string, n: nat, a: string, b: string)
    requires n <= |s| && s[n..] == a + b
    ensures n + |a| <= |s| && s[n + |a|..] == b && forall k :: n <= k < n + |a| ==> s[k] == a[k - n]
  {
    assert s[n + |a|..] == s[n..][|a|..];
    assert forall k :: n <= k < n + |a| ==> s[k] == s[n..][k - n];
  }

  // What the scan of one field reports is m, and it ends at `next`.
  ghost predicate FieldReported(f: FieldResult, m: Meaning, next: nat) {
    && Items(f.events) == m.items
    && match m.end
       case Rejected(e) => f.end == Stop(e)
       case Accepted(ids) => f.end == Continue(next, ids)
  }

  lemma ItemsOfField(id: int, kind: Kind, specs: string)
    ensures Items([]) == []
    ensures Items([Field(id, kind)]) == [Argument(id, kind, None)]
    ensures Items([SpecField(id, kind, specs)]) == [Argument(id, kind, Some(specs))]
  {
    assert [Field(id, kind)][1..] == [] && [SpecField(id, kind, specs)][1..] == [];
  }

  lemma SpecsRead(c: Config, s: string, j: nat, id: nat, kind: Kind, ids: int, text: string, rest: string)
    requires j <= |s| && s[j..] == text + "}" + rest && StopsAt(c, text)
    ensures FieldReported(SpecsAt(c, s, j, id, kind, ids), SpecsMean(c, id, kind, text, rest, ids), j + |text| + 1)
  {
    hide Items;
    var r := c.specs(id, text + "}" + rest, ids);
    ItemsOfField(id, kind, text);
    if r.SpecsParsed? {
      var e := j + r.length;
      assert r.length == |text| || (r.length < |text| && text[r.length] != '}');
      assert e < |s| && s[e] == s[j..][r.length];
      assert s[j..e] == s[j..][..r.length] == text[..r.length];
      assert text[..|text|] == text;
      ItemsOfField(id, kind, text[..r.length]);
    }
  }

  lemma FieldReads(c: Config, s: string, n: nat, p: Piece, rest: string, ids: int)
    requires n <= |s| && s[n..] == Render(p) + rest && !p.Plain? && (p.Name? ==> IsName(p.name))
    requires p.specs.Some? ==> StopsAt(c, p.specs.value)
    ensures n < |s| && s[n] == '{' && FieldReported(FieldAt(c, s, n, ids), FieldMeans(c, p, rest, ids), n + |Render(p)|)
  {
    hide Items, StopsAt, Render, IdText, ArgIdAt, SpecsAt, StandsAt, SpecsMean, Choose;
    var j := n + 1 + |IdText(p)|;
    FieldStands(s, n, p, rest);
    ArgIdReads(c, s, n + 1, p, ids);
    IdHead(p);
    ItemsOfField(0, Named, "");
    match Choose(c, p, ids) {
      case Refused(_) =>
      case Chosen(id, kind, ids') =>
        ItemsOfField(id, kind, "");
        if p.specs.Some? {
          SpecsRead(c, s, j + 1, id, kind, ids', p.specs.value, rest);
        }
    }
  }

  lemma RenderHead(s: string, n: nat, pieces: seq<Piece>)
    requires n <= |s| && pieces != [] && s[n..] == RenderAll(pieces)
    ensures s[n..] == Render(pieces[0]) + RenderAll(pieces[1..])
    ensures n + |Render(pieces[0])| <= |s| && s[n + |Render(pieces[0])|..] == RenderAll(pieces[1..])
  {
    assert s[n + |Render(pieces[0])|..] == s[n..][|Render(pieces[0])|..];
  }

  // The scan of s from n on reports the pending text and what the pieces mean.
  ghost predicate Reported(c: Config, s: string, begin: nat, n: nat, pieces: seq<Piece>, ids: int)
    requires begin <= n <= |s|
  {
    var o, m := Scan(c, s, begin, n, ids), Means(c, pieces, ids);
    o.end == m.end && Items(o.events) == Chars(s[begin..n]) + m.items
  }

  lemma {:induction false} RenderedFrom(c: Config, s: string, begin: nat, n: nat, pieces: seq<Piece>, ids: int)
    requires begin <= n <= |s| && s[n..] == RenderAll(pieces) && WellFormed(pieces) && Contained(c, pieces)
    ensures Reported(c, s, begin, n, pieces, ids)
    decreases |pieces|
  {
    hide Scan, Means, Items, RenderAll, StopsAt, Reported;
    if pieces == [] {
      EndReads(c, s, begin, n, ids);
    } else {
      var p, n' := pieces[0], n + |Render(pieces[0])|;
      RenderHead(s, n, pieces);
      if !p.Plain? {
        FieldReads(c, s, n, p, RenderAll(pieces[1..]), ids);
        var m := FieldMeans(c, p, RenderAll(pieces[1..]), ids);
        if m.end.Accepted? {
          RenderedFrom(c, s, n', n', pieces[1..], m.end.ids);
        }
        StepField(c, s, begin, n, pieces, ids);
      } else if IsBrace(p.ch) {
        assert s[n..][0] == s[n] == p.ch && s[n..][1] == s[n + 1] == p.ch;
        RenderedFrom(c, s, n', n', pieces[1..], ids);
        StepBrace(c, s, begin, n, pieces, ids);
      } else {
        assert s[n..][0] == s[n];
        RenderedFrom(c, s, begin, n', pieces[1..], ids);
        StepPlain(c, s, begin, n, pieces, ids);
      }
    }
  }

  lemma EndReads(c: Config, s: string, begin: nat, n: nat, ids: int)
    requires begin <= n <= |s| && s[n..] == RenderAll([])
    ensures Reported(c, s, begin, n, [], ids)
  {
    assert n == |s|;
    ItemsOfText(s[begin..n]);
  }

  lemma StepPlain(c: Config, s: string, begin: nat, n: nat, pieces: seq<Piece>, ids: int)
    requires begin <= n < |s| && pieces != [] && pieces[0].Plain? && !IsBrace(pieces[0].ch) && s[n] == pieces[0].ch
    requires Reported(c, s, begin, n + 1, pieces[1..], ids)
    ensures Reported(c, s, begin, n, pieces, ids)
  {
    SkipPlain(c, s, begin, n, n + 1, ids);
    CharsStep(s, begin, n, Means(c, pieces[1..], ids).items);
  }

  lemma CharsStep(s: string, begin: nat, n: nat, items: seq<Item>)
    requires begin <= n < |s|
    ensures Chars(s[begin..n + 1]) + items == Chars(s[begin..n]) + ([Char(s[n])] + items)
    ensures Chars(s[n + 1..n + 1]) + items == items
  {
    assert Chars(s[begin..n + 1]) == Chars(s[begin..n]) + [Char(s[n])];
  }

  lemma StepBrace(c: Config, s: string, begin: nat, n: nat, pieces: seq<Piece>, ids: int)
    requires begin <= n && n + 1 < |s| && pieces != [] && pieces[0].Plain? && IsBrace(s[n]) && s[n + 1] == s[n] == pieces[0].ch
    requires Reported(c, s, n + 2, n + 2, pieces[1..], ids)
    ensures Reported(c, s, begin, n, pieces, ids)
  {
    var items := Means(c, pieces[1..], ids).items;
    BraceItems(c, s, begin, n, ids);
    hide Items, Scan;
    CharsStep(s, n + 1, n + 1, items);
    CharsStep(s, begin, n, items);
  }

  lemma BraceItems(c: Config, s: string, begin: nat, n: nat, ids: int)
    requires begin <= n && n + 1 < |s| && IsBrace(s[n]) && s[n + 1] == s[n]
    ensures var o, rest := Scan(c, s, begin, n, ids), Scan(c, s, n + 2, n + 2, ids);
            o.end == rest.end && Items(o.events) == Chars(s[begin..n + 1]) + Items(rest.events)
  {
    hide Items;
    var rest := Scan(c, s, n + 2, n + 2, ids);
    ItemsOfText(s[begin..n + 1]);
    ItemsConcat(TextEvent(s[begin..n + 1]), rest.events);
    if s[n] == '{' {
      StepOpening(c, s, begin, n, ids);
      TwoTextItems(s[begin..n], "{", rest.events);
      assert s[begin..n + 1] == s[begin..n] + "{";
    }
  }

  lemma TwoTextItems(a: string, b: string, rest: seq<Event>)
    ensures Items(TextEvent(a) + (TextEvent(b) + rest)) == Chars(a + b) + Items(rest)
  {
    hide Items;
    ItemsConcat(TextEvent(a), TextEvent(b) + rest);
    ItemsConcat(TextEvent(b), rest);
    ItemsOfText(a);
    ItemsOfText(b);
    assert Chars(a + b) == Chars(a) + Chars(b);
  }

  // The scan at a field, in items.
  lemma ScanField(c: Config, s: string, begin: nat, n: nat, ids: int)
    requires begin <= n < |s| && s[n] == '{'
    ensures var o, f := Scan(c, s, begin, n, ids), FieldAt(c, s, n, ids);
            match f.end
            case Stop(e) => o.end == Rejected(e) && Items(o.events) == Chars(s[begin..n]) + Items(f.events)
            case Continue(next, ids') =>
              var rest := Scan(c, s, next, next, ids');
              o.end == rest.end && Items(o.events) == Chars(s[begin..n]) + Items(f.events) + Items(rest.events)
  {
    hide FieldAt, Items;
    var f, text := FieldAt(c, s, n, ids), s[begin..n];
    if f.end.Continue? {
      ItemsAfter(text, f.events, Scan(c, s, f.end.next, f.end.next, f.end.ids).events);
    } else {
      ItemsConcat(TextEvent(text), f.events);
      ItemsOfText(text);
    }
  }

  lemma MeansField(c: Config, pieces: seq<Piece>, ids: int)
    requires pieces != [] && !pieces[0].Plain?
    ensures var m := FieldMeans(c, pieces[0], RenderAll(pieces[1..]), ids);
            match m.end
            case Rejected(_) => Means(c, pieces, ids) == m
            case Accepted(ids') =>
              var after := Means(c, pieces[1..], ids');
              Means(c, pieces, ids) == Meaning(m.items + after.items, after.end)
  {
    hide FieldMeans, RenderAll;
  }

  lemma StepField(c: Config, s: string, begin: nat, n: nat, pieces: seq<Piece>, ids: int)
    requires begin <= n < |s| && s[n] == '{' && pieces != [] && !pieces[0].Plain? && n + |Render(pieces[0])| <= |s|
    requires FieldReported(FieldAt(c, s, n, ids), FieldMeans(c, pieces[0], RenderAll(pieces[1..]), ids), n + |Render(pieces[0])|)
    requires var m, next := FieldMeans(c, pieces[0], RenderAll(pieces[1..]), ids), n + |Render(pieces[0])|;
             m.end.Accepted? ==> Reported(c, s, next, next, pieces[1..], m.end.ids)
    ensures Reported(c, s, begin, n, pieces, ids)
  {
    hide FieldAt, Items, RenderAll, Render, FieldMeans, Scan, Chars, Means;
    MeansField(c, pieces, ids);
    var m, next, text := FieldMeans(c, pieces[0], RenderAll(pieces[1..]), ids), n + |Render(pieces[0])|, Chars(s[begin..n]);
    ScanField(c, s, begin, n, ids);
    if m.end.Accepted? {
      var after := Means(c, pieces[1..], m.end.ids).items;
      NoChars(s, next, after);
      assert text + m.items + after == text + (m.items + after);
    }
  }

  lemma NoChars(s: string, n: nat, items: seq<Item>)
    requires n <= |s|
    ensures Chars(s[n..n]) + items == items
  {
  }

  // A rendered list of pieces is scanned to what it means, errors included.
  lemma RenderedMeans(c: Config, pieces: seq<Piece>, ids: int)
    requires WellFormed(pieces) && Contained(c, pieces)
    ensures var o, m := Scan(c, RenderAll(pieces), 0, 0, ids), Means(c, pieces, ids); o.end == m.end && Items(o.events) == m.items
  {
    var s := RenderAll(pieces);
    assert s[0..] == s && s[0..0] == "" && Chars("") + Means(c, pieces, ids).items == Means(c, pieces, ids).items;
    RenderedFrom(c, s, 0, 0, pieces, ids);
  }

  lemma RenderOne(p: Piece)
    ensures RenderAll([p]) == Render(p)
  {
    assert [p][1..] == [] && Render(p) + "" == Render(p);
  }

  // A field with an index takes just that argument.
  lemma GivenIndex(c: Config, n: nat)
    requires n <= INT_MAX
    ensures var o := Scan(c, "{" + Decimal(n) + "}", 0, 0, 0);
            if n < c.argCount then o.end == Accepted(-1) && Items(o.events) == [Argument(n, Manual, None)]
            else o.end == Rejected(ArgumentNotFound) && Items(o.events) == []
  {
    hide Scan, Items, Decimal;
    var p := Index(n, None);
    RenderOne(p);
    RenderedMeans(c, [p], 0);
  }

  // A field with a name takes the argument of that name, and its specifiers go to
  // the parser for that argument.
  lemma GivenName(c: Config, name: string, text: string)
    requires IsName(name) && name in c.named && c.named[name] < c.argCount && StopsAt(c, text)
    requires c.specs(c.named[name], text + "}", 0) == SpecsParsed(|text|, 0)
    ensures var o := Scan(c, "{" + name + ":" + text + "}", 0, 0, 0);
            o.end == Accepted(0) && Items(o.events) == [Argument(c.named[name], Named, Some(text))]
  {
    hide Scan, Items, StopsAt;
    var p := Name(name, Some(text));
    RenderOne(p);
    assert Render(p) == "{" + name + ":" + text + "}" && text + "}" + "" == text + "}";
    RenderedMeans(c, [p], 0);
  }

  lemma {:induction false} NumberGrows(x: string)
    requires AllDigits(x) && x != "" && x[0] != '0'
    ensures Number(x) > 0
  {
    if |x| > 1 {
      NumberGrows(x[..|x| - 1]);
    }
  }

  // Digits without a superfluous zero are the numeral of their number.
  lemma {:induction false} DigitsAreDecimal(x: string)
    requires AllDigits(x) && x != "" && (x[0] != '0' || |x| == 1)
    ensures Number(x) >= 0 && Decimal(Number(x)) == x
  {
    var n := |x| - 1;
    var y, last := x[..n], DigitOf(x[n]);
    assert x == y + [x[n]] && DigitChar(last) == x[n];
    if n == 0 {
      assert y == "";
    } else {
      NumberGrows(y);
      DigitsAreDecimal(y);
      assert Number(x) / 10 == Number(y) && Number(x) % 10 == last;
    }
  }

  lemma {:induction false} NameOfField(s: string, i: nat)
    requires i <= |s|
    ensures forall k :: i <= k < NameEnd(s, i) ==> InName(s[k])
    decreases |s| - i
  {
    if i < |s| && (IsNameStart(s[i]) || IsDigit(s[i])) {
      NameOfField(s, i + 1);
    }
  }

  // How the argument was named in a field that was read.
  lemma IdOfField(c: Config, s: string, i: nat, ids: int, specs: Option<string>) returns (p: Piece)
    requires i < |s| && ArgIdAt(c, s, i, ids).Arg?
    ensures !p.Plain? && p.specs == specs && (p.Name? ==> IsName(p.name)) && s[i..ArgIdAt(c, s, i, ids).next] == IdText(p)
  {
    if s[i] == '}' || s[i] == ':' {
      p := Next(specs);
    } else if IsDigit(s[i]) {
      var x := s[i..IndexEnd(s, i)];
      assert x[0] == s[i] && AllDigits(x);
      DigitsAreDecimal(x);
      p := Index(Number(x), specs);
    } else {
      NameOfField(s, i + 1);
      p := Name(s[i..NameEnd(s, i + 1)], specs);
    }
  }

  lemma PieceOfField(c: Config, s: string, i: nat, ids: int) returns (p: Piece)
    requires i + 1 < |s| && s[i] == '{' && s[i + 1] != '{' && FieldAt(c, s, i, ids).end.Continue?
    ensures !p.Plain? && (p.Name? ==> IsName(p.name)) && s[i..FieldAt(c, s, i, ids).end.next] == Render(p)
  {
    hide ArgIdAt, IdText;
    var j, next := ArgIdAt(c, s, i + 1, ids).next, FieldAt(c, s, i, ids).end.next;
    assert i + 1 <= j < next <= |s| && s[next - 1] == '}';
    if s[j] == '}' {
      p := IdOfField(c, s, i + 1, ids, None);
      Slices(s, i, j, next, None);
    } else {
      assert s[j] == ':' && j + 2 <= next;
      p := IdOfField(c, s, i + 1, ids, Some(s[j + 1..next - 1]));
      Slices(s, i, j, next, p.specs);
    }
  }

  lemma Slices(s: string, i: nat, j: nat, next: nat, specs: Option<string>)
    requires i < j < next <= |s| && s[i] == '{' && s[next - 1] == '}'
    requires match specs
             case None => next == j + 1
             case Some(text) => s[j] == ':' && j + 2 <= next && text == s[j + 1..next - 1]
    ensures s[i..next] == "{" + s[i + 1..j] + SpecsText(specs)
  {
    assert s[i..j] == "{" + s[i + 1..j];
    match specs {
      case None => assert s[i..next] == s[i..j] + "}";
      case Some(text) => assert s[i..next] == s[i..j] + (":" + text + "}");
    }
  }

  lemma RenderFirst(s: string, i: nat, p: Piece, rest: seq<Piece>)
    requires i + |Render(p)| <= |s| && s[i..i + |Render(p)|] == Render(p) && s[i + |Render(p)|..] == RenderAll(rest)
    requires WellFormed(rest) && (p.Name? ==> IsName(p.name))
    ensures s[i..] == RenderAll([p] + rest) && WellFormed([p] + rest)
  {
    assert ([p] + rest)[1..] == rest;
    assert s[i..] == s[i..i + |Render(p)|] + s[i + |Render(p)|..];
  }

  // Nothing else is accepted.
  lemma {:induction false} AcceptedFrom(c: Config, s: string, begin: nat, i: nat, ids: int) returns (pieces: seq<Piece>)
    requires begin <= i <= |s| && Scan(c, s, begin, i, ids).end.Accepted?
    ensures WellFormed(pieces) && s[i..] == RenderAll(pieces)
    decreases |s| - i
  {
    hide FieldAt, Render, RenderAll, WellFormed;
    if i == |s| {
      pieces := NoPieces();
    } else {
      var p, rest;
      if s[i] == '{' && !(i + 1 < |s| && s[i + 1] == '{') {
        p := FieldPiece(c, s, begin, i, ids);
        rest := AcceptedFrom(c, s, i + |Render(p)|, i + |Render(p)|, FieldAt(c, s, i, ids).end.ids);
      } else {
        p := Plain(s[i]);
        PlainPiece(c, s, begin, i, ids);
        rest := AcceptedFrom(c, s, if IsBrace(s[i]) then i + 2 else begin, i + |Render(p)|, ids);
      }
      RenderFirst(s, i, p, rest);
      pieces := [p] + rest;
    }
  }

  lemma NoPieces() returns (pieces: seq<Piece>)
    ensures WellFormed(pieces) && RenderAll(pieces) == ""
  {
    pieces := [];
  }

  lemma FieldPiece(c: Config, s: string, begin: nat, i: nat, ids: int) returns (p: Piece)
    requires begin <= i < |s| && s[i] == '{' && !(i + 1 < |s| && s[i + 1] == '{') && Scan(c, s, begin, i, ids).end.Accepted?
    ensures FieldAt(c, s, i, ids).end.Continue? && (p.Name? ==> IsName(p.name))
    ensures var next := FieldAt(c, s, i, ids).end.next;
            next == i + |Render(p)| <= |s| && s[i..next] == Render(p) && Scan(c, s, next, next, FieldAt(c, s, i, ids).end.ids).end.Accepted?
  {
    assert FieldAt(c, s, i, ids).end.Continue?;
    assert i + 1 < |s|;
    hide Render;
    p := PieceOfField(c, s, i, ids);
  }

  lemma PlainPiece(c: Config, s: string, begin: nat, i: nat, ids: int)
    requires begin <= i < |s| && !(s[i] == '{' && !(i + 1 < |s| && s[i + 1] == '{')) && Scan(c, s, begin, i, ids).end.Accepted?
    ensures var n := |Render(Plain(s[i]))|;
            && n == (if IsBrace(s[i]) then 2 else 1) && i + n <= |s| && s[i..i + n] == Render(Plain(s[i]))
            && Scan(c, s, if IsBrace(s[i]) then i + 2 else begin, i + n, ids).end.Accepted?
  {
    if s[i] == '{' {
      StepOpening(c, s, begin, i, ids);
    }
  }

  lemma OnlyRenderedIsAccepted(c: Config, s: string, ids: int) returns (pieces: seq<Piece>)
    requires Scan(c, s, 0, 0, ids).end.Accepted?
    ensures WellFormed(pieces) && s == RenderAll(pieces)
  {
    pieces := AcceptedFrom(c, s, 0, 0, ids);
    assert s[0..] == s;
  }

  // What stands after the opening brace of a field that cannot be read, and why.
  datatype Malformed = Nothing | NoArgument | Unclosed(p: Piece) | Stray

  ghost predicate GoesOn(x: string, more: char -> bool) {
    x == "" || (x[0] != '}' && x[0] != ':' && !more(x[0]))
  }

  // The text of a malformed field, before x.
  ghost predicate IsMalformed(m: Malformed, x: string) {
    match m
    case Nothing => x == ""
    case NoArgument => x != "" && x[0] != '{' && x[0] != '}' && x[0] != ':' && !InName(x[0])
    case Unclosed(Index(n, _)) => GoesOn(x, d => n > 0 && IsDigit(d))
    case Unclosed(Name(name, _)) => IsName(name) && GoesOn(x, InName)
    case Unclosed(_) => false
    case Stray => x == "" || x[0] != '}'
  }

  function MalformedText(m: Malformed): string {
    match m
    case Unclosed(p) => "{" + IdText(p)
    case Stray => "}"
    case _ => "{"
  }

  function Reason(c: Config, m: Malformed): Error {
    match m
    case Unclosed(Name(name, _)) => if name in c.named then MissingBrace else ArgumentNotFound
    case Stray => UnmatchedBrace
    case _ => InvalidFormat
  }

  // Wherever the scan meets one of these it stops with the error that belongs to
  // it.
  lemma SyntaxErrors(c: Config, s: string, begin: nat, i: nat, m: Malformed, x: string, ids: int)
    requires begin <= i <= |s| && s[i..] == MalformedText(m) + x && IsMalformed(m, x)
    ensures Scan(c, s, begin, i, ids).end == Rejected(Reason(c, m))
  {
    AfterPrefix(s, i, MalformedText(m), x);
    match m {
      case Unclosed(Index(n, specs)) => UnclosedIndex(c, s, i, n, x, ids);
      case Unclosed(Name(name, specs)) => UnclosedName(c, s, i, name, x, ids);
      case _ =>
    }
  }

  lemma UnclosedIndex(c: Config, s: string, i: nat, n: nat, x: string, ids: int)
    requires i <= |s| && s[i..] == "{" + Decimal(n) + x && GoesOn(x, d => n > 0 && IsDigit(d))
    ensures i < |s| && s[i] == '{' && FieldAt(c, s, i, ids) == FieldResult([], Stop(InvalidFormat))
  {
    var id := Decimal(n);
    assert "{" + id + x == "{" + (id + x);
    AfterPrefix(s, i, "{", id + x);
    AfterPrefix(s, i + 1, id, x);
    DecimalHead(n);
    DecimalSpells(n);
    if n > 0 {
      DigitsEndUnique(s, i + 1, i + 1 + |id|);
    }
    assert IndexEnd(s, i + 1) == i + 1 + |id|;
  }

  lemma UnclosedName(c: Config, s: string, i: nat, name: string, x: string, ids: int)
    requires i <= |s| && s[i..] == "{" + name + x && IsName(name) && GoesOn(x, InName)
    ensures i < |s| && s[i] == '{'
    ensures FieldAt(c, s, i, ids) == FieldResult([], Stop(if name in c.named then MissingBrace else ArgumentNotFound))
  {
    assert "{" + name + x == "{" + (name + x);
    AfterPrefix(s, i, "{", name + x);
    AfterPrefix(s, i + 1, name, x);
    var e := i + 1 + |name|;
    assert s[i + 1..e] == name;
    NameEnds(s, i + 2, e);
  }
}
