// What a scan of a format string amounts to: text with doubled braces prints
// back as itself, and argument indices are never given in two ways.
module FormatText {
  import opened FormatString

  function Escape(t: string): (s: string) {
    if t == "" then "" else (if IsBrace(t[0]) then [t[0], t[0]] else [t[0]]) + Escape(t[1..])
  }

  predicate IsBrace(c: char) {
    c == '{' || c == '}'
  }

  ghost predicate AllText(events: seq<Event>) {
    forall k :: 0 <= k < |events| ==> events[k].Text?
  }

  // The literal text, with nothing in place of the fields.
  ghost function Printed(events: seq<Event>): string {
    if events == [] then "" else (if events[0].Text? then events[0].text else "") + Printed(events[1..])
  }

  lemma PrintedAfter(text: string, events: seq<Event>)
    ensures Printed(TextEvent(text) + events) == text + Printed(events)
    ensures AllText(TextEvent(text) + events) <==> AllText(events)
  {
    var all := TextEvent(text) + events;
    if text == "" {
      assert all == events;
    } else {
      assert all[1..] == events;
      assert AllText(all) ==> forall k :: 0 <= k < |events| ==> events[k] == all[k + 1];
    }
  }

  lemma StepOpening(c: Config, s: string, begin: nat, i: nat, ids: int)
    requires begin <= i && i + 1 < |s| && s[i] == s[i + 1] == '{'
    ensures var o, rest := Scan(c, s, begin, i, ids), Scan(c, s, i + 2, i + 2, ids);
            o == Prepend(TextEvent(s[begin..i]), Prepend(TextEvent("{"), rest))
  {
    assert FieldAt(c, s, i, ids) == FieldResult(TextEvent("{"), Continue(i + 2, ids));
    PrependTwice(TextEvent(s[begin..i]), TextEvent("{"), Scan(c, s, i + 2, i + 2, ids));
  }

  // A doubled brace prints once and opens no field.
  lemma StepEscape(c: Config, s: string, begin: nat, i: nat, ids: int)
    requires begin <= i && i + 1 < |s| && IsBrace(s[i]) && s[i + 1] == s[i]
    ensures var o, rest := Scan(c, s, begin, i, ids), Scan(c, s, i + 2, i + 2, ids);
            && o.end == rest.end && (AllText(o.events) <==> AllText(rest.events))
            && Printed(o.events) == s[begin..i + 1] + Printed(rest.events)
  {
    var rest := Scan(c, s, i + 2, i + 2, ids);
    if s[i] == '{' {
      StepOpening(c, s, begin, i, ids);
      TwoTexts(s[begin..i], "{", rest.events);
      assert s[begin..i + 1] == s[begin..i] + "{";
    } else {
      PrintedAfter(s[begin..i + 1], rest.events);
    }
  }

  lemma TwoTexts(a: string, b: string, rest: seq<Event>)
    ensures var all := TextEvent(a) + (TextEvent(b) + rest);
            Printed(all) == a + b + Printed(rest) && (AllText(all) <==> AllText(rest))
  {
    PrintedAfter(b, rest);
    PrintedAfter(a, TextEvent(b) + rest);
    assert a + (b + Printed(rest)) == a + b + Printed(rest);
  }

  lemma StepEnd(c: Config, s: string, begin: nat, ids: int)
    requires begin <= |s|
    ensures var o := Scan(c, s, begin, |s|, ids);
            o.end == Accepted(ids) && AllText(o.events) && Printed(o.events) == s[begin..|s|]
  {
    PrintedAfter(s[begin..|s|], []);
    assert TextEvent(s[begin..|s|]) + [] == TextEvent(s[begin..|s|]);
  }

  lemma EscapeHead(s: string, n: nat, t: string)
    requires n <= |s| && t != "" && s[n..] == Escape(t)
    ensures n < |s| && s[n] == t[0] && t == [s[n]] + t[1..]
    ensures IsBrace(t[0]) ==> n + 1 < |s| && s[n + 1] == t[0] && s[n + 2..] == Escape(t[1..])
    ensures !IsBrace(t[0]) ==> s[n + 1..] == Escape(t[1..])
  {
    var e := Escape(t[1..]);
    assert s[n] == s[n..][0];
    if IsBrace(t[0]) {
      assert s[n..] == [t[0], t[0]] + e;
      assert s[n + 1] == s[n..][1] && s[n + 2..] == s[n..][2..];
    } else {
      assert s[n..] == [t[0]] + e;
      assert s[n + 1..] == s[n..][1..];
    }
  }

  // The printed text of one more character.
  lemma PrintsOneMore(s: string, begin: nat, n: nat, u: string)
    requires begin <= n < |s|
    ensures s[begin..n + 1] + u == s[begin..n] + ([s[n]] + u)
  {
    assert s[begin..n + 1] == s[begin..n] + [s[n]];
  }

  lemma {:induction false} EscapedFrom(c: Config, s: string, begin: nat, n: nat, t: string, ids: int)
    requires begin <= n <= |s| && s[n..] == Escape(t)
    ensures var o := Scan(c, s, begin, n, ids);
            o.end == Accepted(ids) && AllText(o.events) && Printed(o.events) == s[begin..n] + t
    decreases |t|
  {
    hide Scan, Printed, AllText;
    if t == "" {
      assert n == |s| && s[begin..n] + t == s[begin..n];
      StepEnd(c, s, begin, ids);
    } else {
      EscapeHead(s, n, t);
      PrintsOneMore(s, begin, n, t[1..]);
      if IsBrace(t[0]) {
        EscapedFrom(c, s, n + 2, n + 2, t[1..], ids);
        assert s[n + 2..n + 2] + t[1..] == t[1..];
        StepEscape(c, s, begin, n, ids);
      } else {
        EscapedFrom(c, s, begin, n + 1, t[1..], ids);
        SkipPlain(c, s, begin, n, n + 1, ids);
      }
    }
  }

  // Doubling the braces of any text makes a format string that prints it.
  lemma EscapedPrintsItself(c: Config, t: string, ids: int)
    ensures var o := Scan(c, Escape(t), 0, 0, ids);
            o.end == Accepted(ids) && AllText(o.events) && Printed(o.events) == t
  {
    var s := Escape(t);
    assert s[0..] == s && s[0..0] + t == t;
    EscapedFrom(c, s, 0, 0, t, ids);
  }

  // A single brace is refused or reports a field.
  lemma SingleBrace(c: Config, s: string, begin: nat, i: nat, ids: int)
    requires begin <= i < |s| && IsBrace(s[i]) && !(i + 1 < |s| && s[i + 1] == s[i])
    ensures !(Scan(c, s, begin, i, ids).end.Accepted? && AllText(Scan(c, s, begin, i, ids).events))
  {
    if s[i] == '{' {
      var f, text := FieldAt(c, s, i, ids), TextEvent(s[begin..i]);
      if f.end.Continue? {
        assert |f.events| == 1 && !f.events[0].Text?;
        assert Scan(c, s, begin, i, ids).events[|text|] == f.events[0];
      }
    }
  }

  lemma UnescapeHead(s: string, i: nat, u: string)
    requires i < |s|
    ensures IsBrace(s[i]) && i + 1 < |s| && s[i + 1] == s[i] && s[i + 2..] == Escape(u) ==> s[i..] == Escape([s[i]] + u)
    ensures !IsBrace(s[i]) && s[i + 1..] == Escape(u) ==> s[i..] == Escape([s[i]] + u)
  {
    assert ([s[i]] + u)[1..] == u;
  }

  // No other accepted string without fields prints t.
  lemma {:induction false} UnescapedFrom(c: Config, s: string, begin: nat, i: nat, ids: int) returns (t: string)
    requires begin <= i <= |s|
    requires Scan(c, s, begin, i, ids).end.Accepted? && AllText(Scan(c, s, begin, i, ids).events)
    ensures s[i..] == Escape(t) && Printed(Scan(c, s, begin, i, ids).events) == s[begin..i] + t
    decreases |s| - i
  {
    if i == |s| {
      t := "";
      StepEnd(c, s, begin, ids);
    } else if IsBrace(s[i]) {
      if !(i + 1 < |s| && s[i + 1] == s[i]) {
        SingleBrace(c, s, begin, i, ids);
      }
      StepEscape(c, s, begin, i, ids);
      var u := UnescapedFrom(c, s, i + 2, i + 2, ids);
      assert s[i + 2..i + 2] + u == u;
      t := [s[i]] + u;
      UnescapeHead(s, i, u);
      PrintsOneMore(s, begin, i, u);
    } else {
      SkipPlain(c, s, begin, i, i + 1, ids);
      var u := UnescapedFrom(c, s, begin, i + 1, ids);
      t := [s[i]] + u;
      UnescapeHead(s, i, u);
      PrintsOneMore(s, begin, i, u);
    }
  }

  lemma OnlyEscapedPrints(c: Config, s: string, ids: int)
    requires Scan(c, s, 0, 0, ids).end.Accepted? && AllText(Scan(c, s, 0, 0, ids).events)
    ensures s == Escape(Printed(Scan(c, s, 0, 0, ids).events))
  {
    var t := UnescapedFrom(c, s, 0, 0, ids);
    assert s[0..] == s && s[0..0] + t == t;
  }

  ghost function KindOf(e: Event): Kind {
    match e
    case Text(_) => Named
    case Field(_, kind) => kind
    case SpecField(_, kind, _) => kind
  }

  ghost predicate Has(events: seq<Event>, kind: Kind) {
    exists k :: 0 <= k < |events| && KindOf(events[k]) == kind
  }

  // Specifier parsers move the counter only through the counter's own two
  // operations: on from an automatic index, or once and for all to manual ones.
  ghost predicate Disciplined(c: Config) {
    forall id: int, rest: string, ids: int ::
      c.specs(id, rest, ids).SpecsParsed? ==>
        if ids < 0 then c.specs(id, rest, ids).ids == ids
        else c.specs(id, rest, ids).ids >= ids || (ids == 0 && c.specs(id, rest, ids).ids == -1)
  }

  lemma HasEither(a: seq<Event>, b: seq<Event>, kind: Kind)
    ensures Has(a + b, kind) <==> Has(a, kind) || Has(b, kind)
  {
    if Has(a, kind) {
      var k :| 0 <= k < |a| && KindOf(a[k]) == kind;
      assert (a + b)[k] == a[k];
    }
    if Has(b, kind) {
      var k :| 0 <= k < |b| && KindOf(b[k]) == kind;
      assert (a + b)[|a| + k] == b[k];
    }
  }

  // One field: it has at most one index, and leaves the counter on its side.
  lemma FieldSide(c: Config, s: string, i: nat, ids: int)
    requires Disciplined(c) && i < |s|
    ensures var f := FieldAt(c, s, i, ids);
            && (Has(f.events, Automatic) ==> ids >= 0 && (f.end.Continue? ==> f.end.ids > 0))
            && (Has(f.events, Manual) ==> ids <= 0 && (f.end.Continue? ==> f.end.ids < 0))
            && !(Has(f.events, Automatic) && Has(f.events, Manual))
            && (f.end.Continue? ==> (ids < 0 ==> f.end.ids < 0) && (ids > 0 ==> f.end.ids > 0))
  {
    assert |FieldAt(c, s, i, ids).events| <= 1;
  }

  // In one format string, automatic and manual indices never both occur, even
  // when it is rejected later on.
  lemma {:induction false} NeverMixed(c: Config, s: string, begin: nat, i: nat, ids: int)
    requires Disciplined(c) && begin <= i <= |s|
    ensures var events := Scan(c, s, begin, i, ids).events;
            && !(Has(events, Automatic) && Has(events, Manual))
            && (ids < 0 ==> !Has(events, Automatic)) && (ids > 0 ==> !Has(events, Manual))
    decreases |s| - i
  {
    if i < |s| {
      if s[i] == '{' {
        var f, text := FieldAt(c, s, i, ids), TextEvent(s[begin..i]);
        FieldSide(c, s, i, ids);
        HasEither(text, f.events, Automatic);
        HasEither(text, f.events, Manual);
        if f.end.Continue? {
          NeverMixed(c, s, f.end.next, f.end.next, f.end.ids);
          HasEither(text + f.events, Scan(c, s, f.end.next, f.end.next, f.end.ids).events, Automatic);
          HasEither(text + f.events, Scan(c, s, f.end.next, f.end.next, f.end.ids).events, Manual);
        }
      } else if s[i] == '}' {
        if i + 1 < |s| && s[i + 1] == '}' {
          var text := TextEvent(s[begin..i + 1]);
          NeverMixed(c, s, i + 2, i + 2, ids);
          HasEither(text, Scan(c, s, i + 2, i + 2, ids).events, Automatic);
          HasEither(text, Scan(c, s, i + 2, i + 2, ids).events, Manual);
        }
      } else {
        NeverMixed(c, s, begin, i + 1, ids);
      }
    }
  }

  ghost function AutomaticIds(events: seq<Event>): seq<int> {
    if events == [] then []
    else (if KindOf(events[0]) == Automatic then [events[0].id] else []) + AutomaticIds(events[1..])
  }

  ghost predicate Consecutive(a: seq<int>, first: int) {
    forall k :: 0 <= k < |a| ==> a[k] == first + k
  }

  lemma {:induction false} AutomaticIdsConcat(a: seq<Event>, b: seq<Event>)
    ensures AutomaticIds(a + b) == AutomaticIds(a) + AutomaticIds(b)
  {
    if a == [] {
      assert a + b == b;
    } else {
      assert (a + b)[1..] == a[1..] + b;
      AutomaticIdsConcat(a[1..], b);
    }
  }

  // When specifiers take no arguments of their own, the fields without an index
  // get the arguments in order, none left out and none twice.
  lemma {:induction false} AutomaticIdsInOrder(c: Config, s: string, begin: nat, i: nat, ids: nat)
    requires begin <= i <= |s| && Undisturbed(c)
    ensures Consecutive(AutomaticIds(Scan(c, s, begin, i, ids).events), ids)
    decreases |s| - i
  {
    hide FieldAt, AutomaticIds;
    if i == |s| {
      TextHasNoIds(s[begin..i]);
    } else if s[i] == '{' {
      StepAutomaticIds(c, s, begin, i, ids);
      var f := FieldAt(c, s, i, ids);
      if f.end.Continue? && f.end.ids >= 0 {
        AutomaticIdsInOrder(c, s, f.end.next, f.end.next, f.end.ids);
      }
    } else if s[i] == '}' {
      if i + 1 < |s| && s[i + 1] == '}' {
        TextHasNoIds(s[begin..i + 1]);
        AutomaticIdsConcat(TextEvent(s[begin..i + 1]), Scan(c, s, i + 2, i + 2, ids).events);
        AutomaticIdsInOrder(c, s, i + 2, i + 2, ids);
      } else {
        TextHasNoIds("");
      }
    } else {
      AutomaticIdsInOrder(c, s, begin, i + 1, ids);
    }
  }

  ghost predicate Undisturbed(c: Config) {
    forall id: int, rest: string, ids: int :: c.specs(id, rest, ids).SpecsParsed? ==> c.specs(id, rest, ids).ids == ids
  }

  lemma TextHasNoIds(text: string)
    ensures AutomaticIds(TextEvent(text)) == []
  {
    if text != "" {
      assert TextEvent(text)[1..] == [];
    }
  }

  lemma StepAutomaticIds(c: Config, s: string, begin: nat, i: nat, ids: nat)
    requires begin <= i < |s| && s[i] == '{' && Undisturbed(c)
    ensures var f, a := FieldAt(c, s, i, ids), AutomaticIds(Scan(c, s, begin, i, ids).events);
            if f.end.Continue? && f.end.ids >= 0 then
              && (f.end.ids == ids || f.end.ids == ids + 1)
              && a == (if f.end.ids == ids then [] else [ids]) + AutomaticIds(Scan(c, s, f.end.next, f.end.next, f.end.ids).events)
            else a == [] || a == [ids]
  {
    var f, text := FieldAt(c, s, i, ids), TextEvent(s[begin..i]);
    FieldAutomaticIds(c, s, i, ids);
    TextHasNoIds(s[begin..i]);
    AutomaticIdsConcat(text, f.events);
    if f.end.Continue? {
      var rest := Scan(c, s, f.end.next, f.end.next, f.end.ids).events;
      AutomaticIdsConcat(text + f.events, rest);
      if f.end.ids < 0 {
        NeverMixed(c, s, f.end.next, f.end.next, f.end.ids);
        NoAutomaticIds(rest);
      }
    }
  }

  lemma FieldAutomaticIds(c: Config, s: string, i: nat, ids: nat)
    requires i < |s| && Undisturbed(c)
    ensures var f := FieldAt(c, s, i, ids);
            && (AutomaticIds(f.events) == [] || AutomaticIds(f.events) == [ids])
            && (f.end.Continue? && f.end.ids >= 0 ==> f.end.ids == ids + |AutomaticIds(f.events)|)
            && (f.end.Continue? && f.end.ids < 0 ==> AutomaticIds(f.events) == [])
  {
  }

  lemma {:induction false} NoAutomaticIds(events: seq<Event>)
    requires !Has(events, Automatic)
    ensures AutomaticIds(events) == []
  {
    if events != [] {
      assert KindOf(events[0]) != Automatic;
      HasEither([events[0]], events[1..], Automatic);
      assert [events[0]] + events[1..] == events;
      NoAutomaticIds(events[1..]);
    }
  }
}
