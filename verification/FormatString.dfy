// Scanning a format string: literal text, doubled braces and replacement fields.
// Short strings are scanned character by character, long ones in two passes that
// look for the next brace; both are proved to be the one scan below.
module FormatString {
  import opened Words
  import opened Wrappers
  import opened Digits
  import opened DecimalText

  datatype Error =
    | InvalidFormat
    | MissingBrace
    | UnknownSpecifier
    | UnmatchedBrace
    | ArgumentNotFound
    | CannotSwitchToAutomatic
    | CannotSwitchToManual

  datatype Kind = Automatic | Manual | Named

  // What the scan tells its handler.
  datatype Event = Text(text: string) | Field(id: int, kind: Kind) | SpecField(id: int, kind: Kind, specs: string)

  // The parser of one argument's own specifiers, given the argument, the rest of
  // the string and the argument counter: user code for custom types.
  datatype SpecsResult = SpecsError(error: Error) | SpecsParsed(length: nat, ids: int)

  datatype Config = Config(argCount: nat, named: map<string, nat>, specs: (int, string, int) -> SpecsResult)

  datatype End = Accepted(ids: int) | Rejected(error: Error)

  datatype Outcome = Outcome(events: seq<Event>, end: End)

  datatype ArgResult = ArgError(error: Error) | Arg(id: int, kind: Kind, next: nat, ids: int)

  datatype FieldEnd = Continue(next: nat, ids: int) | Stop(error: Error)

  datatype FieldResult = FieldResult(events: seq<Event>, end: FieldEnd)

  predicate IsNameStart(c: char) {
    'a' <= c <= 'z' || 'A' <= c <= 'Z' || '_' == c
  }

  ghost function NameEnd(s: string, i: nat): (p: nat)
    requires i <= |s|
    ensures i <= p <= |s|
    decreases |s| - i
  {
    if i < |s| && (IsNameStart(s[i]) || IsDigit(s[i])) then NameEnd(s, i + 1) else i
  }

  // The counter is the next automatic index, or -1 once an index was given.
  ghost function NextArgId(ids: int, next: nat): ArgResult {
    if ids >= 0 then Arg(ids, Automatic, next, ids + 1) else ArgError(CannotSwitchToAutomatic)
  }

  ghost function GivenArgId(ids: int, id: int, next: nat): ArgResult {
    if ids > 0 then ArgError(CannotSwitchToManual) else Arg(id, Manual, next, -1)
  }

  ghost function IndexEnd(s: string, i: nat): (e: nat)
    requires i < |s| && IsDigit(s[i])
    ensures i < e <= |s|
  {
    if s[i] == '0' then i + 1 else DigitsEnd(s, i)
  }

  // The argument named at i, which is inside the braces.
  ghost function ArgIdAt(c: Config, s: string, i: nat, ids: int): (r: ArgResult)
    requires i < |s|
    ensures r.Arg? ==> i <= r.next <= |s|
  {
    if s[i] == '}' || s[i] == ':' then NextArgId(ids, i)
    else if IsDigit(s[i]) then
      var e := IndexEnd(s, i);
      if e == |s| || (s[e] != '}' && s[e] != ':') then ArgError(InvalidFormat)
      else GivenArgId(ids, ParsedInt(s[i..e], INT_MAX), e)
    else if !IsNameStart(s[i]) then ArgError(InvalidFormat)
    else
      var e := NameEnd(s, i + 1);
      if s[i..e] in c.named then Arg(c.named[s[i..e]], Named, e, ids) else ArgError(ArgumentNotFound)
  }

  ghost predicate HasArg(c: Config, id: int) {
    0 <= id < c.argCount
  }

  // The specifiers that start at i, and the brace that has to follow them.
  ghost function SpecsAt(c: Config, s: string, i: nat, id: int, kind: Kind, ids: int): (r: FieldResult)
    requires i <= |s|
    ensures r.end.Continue? ==> i < r.end.next <= |s|
  {
    match c.specs(id, s[i..], ids)
    case SpecsError(e) => FieldResult([], Stop(e))
    case SpecsParsed(length, ids') =>
      var e := if i + length <= |s| then i + length else |s|;
      FieldResult([SpecField(id, kind, s[i..e])], if e == |s| || s[e] != '}' then Stop(UnknownSpecifier) else Continue(e + 1, ids'))
  }

  // The replacement field, or escaped brace, that starts at i.
  ghost function FieldAt(c: Config, s: string, i: nat, ids: int): (r: FieldResult)
    requires i < |s|
    ensures r.end.Continue? ==> i + 1 < r.end.next <= |s|
  {
    if i + 1 == |s| then FieldResult([], Stop(InvalidFormat))
    else if s[i + 1] == '{' then FieldResult([Text("{")], Continue(i + 2, ids))
    else match ArgIdAt(c, s, i + 1, ids)
      case ArgError(e) => FieldResult([], Stop(e))
      case Arg(id, kind, j, ids') =>
        if j == |s| || (s[j] != '}' && s[j] != ':') then FieldResult([], Stop(MissingBrace))
        else if !HasArg(c, id) then FieldResult([], Stop(ArgumentNotFound))
        else if s[j] == '}' then FieldResult([Field(id, kind)], Continue(j + 1, ids'))
        else SpecsAt(c, s, j + 1, id, kind, ids')
  }

  function TextEvent(text: string): seq<Event> {
    if text == "" then [] else [Text(text)]
  }

  ghost function Prepend(events: seq<Event>, o: Outcome): Outcome {
    o.(events := events + o.events)
  }

  // What the scan of s from i on reports, when s[begin..i] is text not yet
  // reported.
  ghost function Scan(c: Config, s: string, begin: nat, i: nat, ids: int): Outcome
    requires begin <= i <= |s|
    decreases |s| - i
  {
    if i == |s| then Outcome(TextEvent(s[begin..i]), Accepted(ids))
    else if s[i] == '{' then
      var f := FieldAt(c, s, i, ids);
      match f.end
      case Stop(e) => Outcome(TextEvent(s[begin..i]) + f.events, Rejected(e))
      case Continue(next, ids') => Prepend(TextEvent(s[begin..i]) + f.events, Scan(c, s, next, next, ids'))
    else if s[i] == '}' then
      if i + 1 == |s| || s[i + 1] != '}' then Outcome([], Rejected(UnmatchedBrace))
      else Prepend(TextEvent(s[begin..i + 1]), Scan(c, s, i + 2, i + 2, ids))
    else Scan(c, s, begin, i + 1, ids)
  }

  lemma PrependTwice(a: seq<Event>, b: seq<Event>, o: Outcome)
    ensures Prepend(a, Prepend(b, o)) == Prepend(a + b, o)
  {
    assert a + (b + o.events) == a + b + o.events;
  }

  // The verdict on s of a handler that has recorded `events` so far.
  ghost function Verdict(c: Config, s: string, events: seq<Event>, begin: nat, i: nat, ids: int): Outcome
    requires begin <= i <= |s|
  {
    Prepend(events, Scan(c, s, begin, i, ids))
  }

  // Text without braces stays unreported.
  lemma {:induction false} SkipPlain(c: Config, s: string, begin: nat, i: nat, j: nat, ids: int)
    requires begin <= i <= j <= |s| && forall k :: i <= k < j ==> s[k] != '{' && s[k] != '}'
    ensures Scan(c, s, begin, i, ids) == Scan(c, s, begin, j, ids)
    decreases j - i
  {
    if i < j {
      SkipPlain(c, s, begin, i + 1, j, ids);
    }
  }

  // At a field, or at the end, pending text may as well be reported first.
  lemma FlushText(c: Config, s: string, begin: nat, i: nat, ids: int, events: seq<Event>)
    requires begin <= i <= |s| && (i == |s| || s[i] == '{')
    ensures Verdict(c, s, events, begin, i, ids) == Verdict(c, s, events + TextEvent(s[begin..i]), i, i, ids)
  {
    var t := TextEvent(s[begin..i]);
    assert TextEvent(s[i..i]) == [];
    if i < |s| {
      var f := FieldAt(c, s, i, ids);
      assert [] + f.events == f.events;
      if f.end.Continue? {
        PrependTwice(t, f.events, Scan(c, s, f.end.next, f.end.next, f.end.ids));
      }
    }
    PrependTwice(events, t, Scan(c, s, i, i, ids));
  }

  lemma ReportField(c: Config, s: string, i: nat, ids: int, events: seq<Event>)
    requires i < |s| && s[i] == '{'
    ensures var f := FieldAt(c, s, i, ids);
            match f.end
            case Continue(next, ids') => Verdict(c, s, events, i, i, ids) == Verdict(c, s, events + f.events, next, next, ids')
            case Stop(e) => Verdict(c, s, events, i, i, ids) == Outcome(events + f.events, Rejected(e))
  {
    var f := FieldAt(c, s, i, ids);
    assert TextEvent(s[i..i]) + f.events == f.events;
    if f.end.Continue? {
      PrependTwice(events, f.events, Scan(c, s, f.end.next, f.end.next, f.end.ids));
    }
  }

  lemma ReportClosing(c: Config, s: string, begin: nat, i: nat, ids: int, events: seq<Event>)
    requires begin <= i < |s| && s[i] == '}'
    ensures if i + 1 == |s| || s[i + 1] != '}' then
              Verdict(c, s, events, begin, i, ids) == Outcome(events, Rejected(UnmatchedBrace))
            else
              Verdict(c, s, events, begin, i, ids) == Verdict(c, s, events + TextEvent(s[begin..i + 1]), i + 2, i + 2, ids)
  {
    assert events + [] == events;
    if i + 1 < |s| && s[i + 1] == '}' {
      PrependTwice(events, TextEvent(s[begin..i + 1]), Scan(c, s, i + 2, i + 2, ids));
    }
  }

  lemma ReportEnd(c: Config, s: string, begin: nat, ids: int, events: seq<Event>)
    requires begin <= |s|
    ensures Verdict(c, s, events, begin, |s|, ids) == Outcome(events + TextEvent(s[begin..]), Accepted(ids))
  {
    assert s[begin..|s|] == s[begin..];
  }

  // The handler: it records the events and keeps the argument counter.
  class Handler {
    var events: seq<Event>
    var nextArgId: int

    constructor ()
      ensures events == [] && nextArgId == 0
    {
      events, nextArgId := [], 0;
    }

    method OnText(text: string)
      modifies this`events
      ensures events == old(events) + TextEvent(text)
    {
      events := events + TextEvent(text);
    }

    method NextId() returns (error: Option<Error>, id: int)
      modifies this`nextArgId
      ensures match NextArgId(old(nextArgId), 0)
              case ArgError(e) => error == Some(e) && nextArgId == old(nextArgId)
              case Arg(i, _, _, ids) => error == None && id == i && nextArgId == ids
    {
      if nextArgId >= 0 {
        id := nextArgId;
        nextArgId := nextArgId + 1;
        return None, id;
      }
      return Some(CannotSwitchToAutomatic), 0;
    }

    method CheckId(id: int) returns (error: Option<Error>)
      modifies this`nextArgId
      ensures match GivenArgId(old(nextArgId), id, 0)
              case ArgError(e) => error == Some(e) && nextArgId == old(nextArgId)
              case Arg(_, _, _, ids) => error == None && nextArgId == ids
    {
      if nextArgId > 0 {
        return Some(CannotSwitchToManual);
      }
      nextArgId := -1;
      return None;
    }

    method ParseArgId(c: Config, s: string, begin: nat) returns (error: Option<Error>, id: int, kind: Kind, next: nat)
      requires begin < |s|
      modifies this`nextArgId
      ensures match ArgIdAt(c, s, begin, old(nextArgId))
              case ArgError(e) => error == Some(e)
              case Arg(i, k, j, ids) => error == None && id == i && kind == k && next == j && nextArgId == ids
    {
      error, id, kind, next := None, 0, Automatic, begin;
      if s[begin] == '}' || s[begin] == ':' {
        error, id := NextId();
      } else if IsDigit(s[begin]) {
        kind := Manual;
        if s[begin] != '0' {
          id, next := ParseNonnegativeInt(s, begin, INT_MAX);
        } else {
          next := begin + 1;
          assert s[begin..next] == [] + ['0'];
          NumberAppend([], '0');
        }
        if next == |s| || (s[next] != '}' && s[next] != ':') {
          return Some(InvalidFormat), id, kind, next;
        }
        error := CheckId(id);
      } else if !IsNameStart(s[begin]) {
        error := Some(InvalidFormat);
      } else {
        kind, next := Named, begin + 1;
        while next < |s| && (IsNameStart(s[next]) || IsDigit(s[next]))
          invariant begin < next <= |s| && NameEnd(s, next) == NameEnd(s, begin + 1)
        {
          next := next + 1;
        }
        if s[begin..next] in c.named {
          id := c.named[s[begin..next]];
        } else {
          error := Some(ArgumentNotFound);
        }
      }
    }

    // Parses the field whose opening brace is at `begin`.
    method ParseReplacementField(c: Config, s: string, begin: nat) returns (error: Option<Error>, next: nat)
      requires begin < |s|
      modifies this
      ensures var f := FieldAt(c, s, begin, old(nextArgId));
              && events == old(events) + f.events
              && match f.end
                 case Stop(e) => error == Some(e)
                 case Continue(j, ids) => error == None && next == j && nextArgId == ids
    {
      next := begin + 1;
      if next == |s| {
        return Some(InvalidFormat), |s|;
      }
      if s[next] == '{' {
        OnText("{");
        return None, next + 1;
      }
      var id, kind;
      error, id, kind, next := ParseArgId(c, s, next);
      if error.Some? {
        return error, |s|;
      }
      if next == |s| || (s[next] != '}' && s[next] != ':') {
        return Some(MissingBrace), |s|;
      }
      if !(0 <= id < c.argCount) {
        return Some(ArgumentNotFound), |s|;
      }
      if s[next] == '}' {
        events := events + [Field(id, kind)];
        return None, next + 1;
      }
      error, next := OnFormatSpecs(c, s, next + 1, id, kind);
    }

    method OnFormatSpecs(c: Config, s: string, begin: nat, id: int, kind: Kind) returns (error: Option<Error>, next: nat)
      requires begin <= |s|
      modifies this
      ensures var f := SpecsAt(c, s, begin, id, kind, old(nextArgId));
              && events == old(events) + f.events
              && match f.end
                 case Stop(e) => error == Some(e)
                 case Continue(j, ids) => error == None && next == j && nextArgId == ids
    {
      match c.specs(id, s[begin..], nextArgId) {
        case SpecsError(e) =>
          return Some(e), |s|;
        case SpecsParsed(length, ids) =>
          next := if begin + length <= |s| then begin + length else |s|;
          nextArgId := ids;
          events := events + [SpecField(id, kind, s[begin..next])];
          if next == |s| || s[next] != '}' {
            return Some(UnknownSpecifier), |s|;
          }
          return None, next + 1;
      }
    }

    // The events and the verdict are those of o.
    ghost predicate Reported(o: Outcome, error: Option<Error>)
      reads this
    {
      && events == o.events
      && match o.end
         case Accepted(ids) => error == None && nextArgId == ids
         case Rejected(e) => error == Some(e)
    }

    // The loop for strings of fewer than 32 characters.
    method ParseShort(c: Config, s: string) returns (error: Option<Error>)
      modifies this
      ensures Reported(Verdict(c, s, old(events), 0, 0, old(nextArgId)), error)
    {
      ghost var verdict := Verdict(c, s, events, 0, 0, nextArgId);
      var begin: nat, p: nat := 0, 0;
      while p < |s|
        invariant begin <= p <= |s| && Verdict(c, s, events, begin, p, nextArgId) == verdict
        decreases |s| - p
      {
        var ch := s[p];
        p := p + 1;
        if ch == '{' {
          FlushText(c, s, begin, p - 1, nextArgId, events);
          OnText(s[begin..p - 1]);
          ReportField(c, s, p - 1, nextArgId, events);
          error, p := ParseReplacementField(c, s, p - 1);
          if error.Some? {
            return;
          }
          begin := p;
        } else if ch == '}' {
          ReportClosing(c, s, begin, p - 1, nextArgId, events);
          if p == |s| || s[p] != '}' {
            return Some(UnmatchedBrace);
          }
          OnText(s[begin..p]);
          p := p + 1;
          begin := p;
        } else {
          SkipPlain(c, s, begin, p - 1, p, nextArgId);
        }
      }
      ReportEnd(c, s, begin, nextArgId, events);
      OnText(s[begin..]);
      error := None;
    }

    static method Find(s: string, first: nat, last: nat, ch: char) returns (found: bool, p: nat)
      requires first <= last <= |s|
      ensures first <= p <= last && (found <==> p < last) && (found ==> s[p] == ch)
      ensures forall k :: first <= k < p ==> s[k] != ch
    {
      p := first;
      while p < last
        invariant first <= p <= last && forall k :: first <= k < p ==> s[k] != ch
      {
        if s[p] == ch {
          return true, p;
        }
        p := p + 1;
      }
      found := false;
    }

    // Reports a stretch without opening braces, up to a field or the end.
    method Write(ghost c: Config, s: string, begin: nat, end: nat) returns (error: Option<Error>)
      requires begin <= end <= |s| && (end == |s| || s[end] == '{')
      requires forall k :: begin <= k < end ==> s[k] != '{'
      modifies this`events
      ensures Verdict(c, s, old(events), begin, begin, nextArgId)
              == match error
                 case None => Verdict(c, s, events, end, end, nextArgId)
                 case Some(e) => Outcome(events, Rejected(e))
    {
      ghost var verdict := Verdict(c, s, events, begin, begin, nextArgId);
      if begin == end {
        return None;
      }
      var b := begin;
      while true
        invariant begin <= b <= end && Verdict(c, s, events, b, b, nextArgId) == verdict
        decreases end - b
      {
        var found, p := Find(s, b, end, '}');
        SkipPlain(c, s, b, b, p, nextArgId);
        if !found {
          FlushText(c, s, b, end, nextArgId, events);
          OnText(s[b..end]);
          return None;
        }
        ReportClosing(c, s, b, p, nextArgId, events);
        p := p + 1;
        if p == end || s[p] != '}' {
          return Some(UnmatchedBrace);
        }
        OnText(s[b..p]);
        b := p + 1;
      }
    }

    // The two passes for longer strings.
    method ParseLong(c: Config, s: string) returns (error: Option<Error>)
      modifies this
      ensures Reported(Verdict(c, s, old(events), 0, 0, old(nextArgId)), error)
    {
      ghost var verdict := Verdict(c, s, events, 0, 0, nextArgId);
      var begin: nat := 0;
      while begin < |s|
        invariant begin <= |s| && Verdict(c, s, events, begin, begin, nextArgId) == verdict
        decreases |s| - begin
      {
        var found, p := true, begin;
        if s[begin] != '{' {
          found, p := Find(s, begin + 1, |s|, '{');
        }
        error := Write(c, s, begin, p);
        if error.Some? {
          return;
        }
        if !found {
          ReportEnd(c, s, p, nextArgId, events);
          return;
        }
        ReportField(c, s, p, nextArgId, events);
        error, begin := ParseReplacementField(c, s, p);
        if error.Some? {
          return;
        }
      }
      ReportEnd(c, s, begin, nextArgId, events);
      error := None;
    }

    method ParseFormatString(c: Config, s: string) returns (error: Option<Error>)
      modifies this
      ensures Reported(Verdict(c, s, old(events), 0, 0, old(nextArgId)), error)
    {
      if |s| < 32 {
        error := ParseShort(c, s);
      } else {
        error := ParseLong(c, s);
      }
    }
  }
}
