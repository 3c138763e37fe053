/** The requirement improver: the record `improve` returns, and the splitter
    that cuts the model's improved text into numbered requirements at each
    "요구사항" header line. */
module Improver {
  import opened Wrappers
  import opened Text

  /** One parsed requirement: its position, its gathered text and its
      requirement pattern. */
  datatype Requirement = Requirement(number: int, text: string, pattern: string)

  /** What `improve` returns. */
  datatype Improvement = Improvement(
    original: string,
    improved: string,
    subject: string,
    system: string,
    receiver: string)

  /** The word that opens a requirement header ("requirement"). */
  const HeaderWord: string := "요구사항"

  /** The pattern every parsed requirement is given. */
  const DefaultPattern: string := "Ubiquitous"

  /** `improve`: `reply` is what the model call returned; an error from the
      call propagates unchanged. */
  function Improve(original: string, subject: string, system: string, receiver: string,
                   reply: Result<string, string>): (r: Result<Improvement, string>)
    ensures reply.Failure? ==> r == Failure(reply.error)
    ensures reply.Success? ==> r.Success? && r.value.improved == reply.value
    ensures r.Success? ==>
      r.value.original == original && r.value.subject == subject &&
      r.value.system == system && r.value.receiver == receiver
  {
    match reply
    case Failure(e) => Failure(e)
    case Success(text) => Success(Improvement(original, text, subject, system, receiver))
  }

  /** The stripped form of every line; the parser only ever looks at a line
      through `strip()`. */
  function StripAll(lines: seq<string>): (r: seq<string>)
    ensures |r| == |lines|
    ensures forall k :: 0 <= k < |r| ==> r[k] == Strip(lines[k])
  {
    seq(|lines|, k requires 0 <= k < |lines| => Strip(lines[k]))
  }

  /** A stripped line opens a new requirement when it starts with the header
      word. */
  predicate IsHeader(t: string) {
    HeaderWord <= t
  }

  /** The text a stripped non-header line adds to the open requirement: the
      line and one space, or nothing for a blank line. */
  function Piece(t: string): (r: string)
    ensures r == [] <==> t == []
    ensures r != [] ==> r == t + " "
  {
    if t != [] then t + " " else []
  }

  /** The parser's loop over stripped lines: `done` holds the finished
      requirements and `current` the open one, if any. */
  function ParseLines(lines: seq<string>, done: seq<Requirement>, current: Option<Requirement>): (r: seq<Requirement>)
    ensures |r| == |done| + (if current.Some? then 1 else 0) + HeaderCount(lines)
    ensures r[..|done|] == done
    decreases |lines|
  {
    if |lines| == 0 then
      if current.Some? then done + [current.value] else done
    else
      var t := lines[0];
      if IsHeader(t) then
        var finished := if current.Some? then done + [current.value] else done;
        ParseLines(lines[1..], finished, Some(Requirement(|finished| + 1, "", DefaultPattern)))
      else if current.Some? && t != [] then
        var c := current.value;
        ParseLines(lines[1..], done, Some(c.(text := c.text + t + " ")))
      else
        ParseLines(lines[1..], done, current)
  }

  // ---------------------------------------------------------------------------
  // A reference definition: one requirement per header line
  // ---------------------------------------------------------------------------

  /** The text gathered from `lines` up to the next header. */
  function BodyText(lines: seq<string>): string {
    if |lines| == 0 || IsHeader(lines[0]) then [] else Piece(lines[0]) + BodyText(lines[1..])
  }

  /** One requirement for each header of `lines`, numbered from `n`, each
      holding the body text that follows its header. */
  function Entries(lines: seq<string>, n: int): seq<Requirement> {
    if |lines| == 0 then []
    else if IsHeader(lines[0]) then [Requirement(n, BodyText(lines[1..]), DefaultPattern)] + Entries(lines[1..], n + 1)
    else Entries(lines[1..], n)
  }

  /** The number of header lines. */
  function HeaderCount(lines: seq<string>): nat {
    if |lines| == 0 then 0 else (if IsHeader(lines[0]) then 1 else 0) + HeaderCount(lines[1..])
  }

  /** What the loop produces from `lines` given its state: the finished
      requirements, then the open one completed with the body text that
      follows, then one entry per remaining header. */
  function Expected(lines: seq<string>, done: seq<Requirement>, current: Option<Requirement>): seq<Requirement> {
    match current
    case None => done + Entries(lines, |done| + 1)
    case Some(c) => done + [c.(text := c.text + BodyText(lines))] + Entries(lines, |done| + 2)
  }

  /** The loop computes the reference definition. */
  lemma {:induction false} ParseLinesIsEntries(lines: seq<string>, done: seq<Requirement>, current: Option<Requirement>)
    ensures ParseLines(lines, done, current) == Expected(lines, done, current)
    decreases |lines|
  {
    if |lines| == 0 {
      if current.Some? {
        assert current.value.(text := current.value.text + BodyText(lines)) == current.value;
      }
    } else {
      var line, rest := lines[0], lines[1..];
      if IsHeader(line) {
        var finished := if current.Some? then done + [current.value] else done;
        var started := Requirement(|finished| + 1, "", DefaultPattern);
        ParseLinesIsEntries(rest, finished, Some(started));
        HeaderStep(lines, done, current);
      } else if current.Some? && line != [] {
        var c := current.value;
        var c' := c.(text := c.text + line + " ");
        ParseLinesIsEntries(rest, done, Some(c'));
        assert c.text + BodyText(lines) == c'.text + BodyText(rest);
      } else {
        ParseLinesIsEntries(rest, done, current);
        assert Entries(lines, |done| + 1) == Entries(rest, |done| + 1);
        assert Entries(lines, |done| + 2) == Entries(rest, |done| + 2);
        if current.Some? {
          assert BodyText(lines) == BodyText(rest);
        }
      }
    }
  }

  /** At a header the open requirement is finished and a new one, numbered
      after all finished ones, is opened. */
  lemma HeaderStep(lines: seq<string>, done: seq<Requirement>, current: Option<Requirement>)
    requires |lines| > 0 && IsHeader(lines[0])
    ensures var finished := if current.Some? then done + [current.value] else done;
      Expected(lines[1..], finished, Some(Requirement(|finished| + 1, "", DefaultPattern))) ==
      Expected(lines, done, current)
  {
    var rest := lines[1..];
    var finished := if current.Some? then done + [current.value] else done;
    var started := Requirement(|finished| + 1, "", DefaultPattern);
    var entry := Requirement(|finished| + 1, BodyText(rest), DefaultPattern);
    assert started.(text := started.text + BodyText(rest)) == entry;
    assert Entries(lines, |finished| + 1) == [entry] + Entries(rest, |finished| + 2);
    assert finished + [entry] + Entries(rest, |finished| + 2) == finished + Entries(lines, |finished| + 1);
    if current.Some? {
      assert current.value.(text := current.value.text + BodyText(lines)) == current.value;
    }
  }

  /** `parse_improved_requirements`. */
  function ParseImprovedRequirements(text: string): (r: seq<Requirement>)
    ensures r == Entries(StripAll(Split(text, '\n')), 1)
    ensures |r| == HeaderCount(StripAll(Split(text, '\n')))
    ensures forall k :: 0 <= k < |r| ==> r[k].number == k + 1 && r[k].pattern == DefaultPattern
  {
    var lines := StripAll(Split(text, '\n'));
    ParseLinesIsEntries(lines, [], None);
    EntriesShape(lines, 1);
    ParseLines(lines, [], None)
  }

  /** One entry per header, numbered consecutively from `n`, all with the
      default pattern. */
  lemma {:induction false} EntriesShape(lines: seq<string>, n: int)
    ensures |Entries(lines, n)| == HeaderCount(lines)
    ensures forall k :: 0 <= k < |Entries(lines, n)| ==>
      Entries(lines, n)[k].number == n + k && Entries(lines, n)[k].pattern == DefaultPattern
  {
    if |lines| > 0 {
      EntriesShape(lines[1..], if IsHeader(lines[0]) then n + 1 else n);
    }
  }

  /** Without a header there are no requirements. */
  lemma NoHeaderNoRequirements(text: string)
    requires forall k :: 0 <= k < |Split(text, '\n')| ==> !(HeaderWord <= Strip(Split(text, '\n')[k]))
    ensures ParseImprovedRequirements(text) == []
  {
    NoHeaderNoEntries(StripAll(Split(text, '\n')), 1);
  }

  lemma {:induction false} NoHeaderNoEntries(lines: seq<string>, n: int)
    requires forall k :: 0 <= k < |lines| ==> !IsHeader(lines[k])
    ensures Entries(lines, n) == []
    ensures HeaderCount(lines) == 0
  {
    if |lines| > 0 {
      assert !IsHeader(lines[0]);
      NoHeaderNoEntries(lines[1..], n);
    }
  }

  /** Lines before the first header contribute nothing. */
  lemma {:induction false} PreambleIgnored(pre: seq<string>, lines: seq<string>, n: int)
    requires forall k :: 0 <= k < |pre| ==> !IsHeader(pre[k])
    ensures Entries(pre + lines, n) == Entries(lines, n)
  {
    if |pre| > 0 {
      assert !IsHeader(pre[0]);
      assert (pre + lines)[1..] == pre[1..] + lines;
      PreambleIgnored(pre[1..], lines, n);
    } else {
      assert pre + lines == lines;
    }
  }

  /** A header followed by header-free body lines and then either the end or
      another header makes one requirement whose text is the body's pieces;
      the header line's own text is not part of it. */
  lemma {:induction false} HeaderThenBody(header: string, body: seq<string>, rest: seq<string>, n: int)
    requires IsHeader(header)
    requires forall k :: 0 <= k < |body| ==> !IsHeader(body[k])
    requires |rest| == 0 || IsHeader(rest[0])
    ensures Entries([header] + body + rest, n) ==
      [Requirement(n, BodyText(body), DefaultPattern)] + Entries(rest, n + 1)
  {
    assert ([header] + body + rest)[0] == header;
    assert ([header] + body + rest)[1..] == body + rest;
    PreambleIgnored(body, rest, n + 1);
    BodyTextStops(body, rest);
  }

  /** Body text stops at the next header. */
  lemma {:induction false} BodyTextStops(body: seq<string>, rest: seq<string>)
    requires forall k :: 0 <= k < |body| ==> !IsHeader(body[k])
    requires |rest| == 0 || IsHeader(rest[0])
    ensures BodyText(body + rest) == BodyText(body)
  {
    if |body| > 0 {
      assert !IsHeader(body[0]);
      assert (body + rest)[1..] == body[1..] + rest;
      BodyTextStops(body[1..], rest);
    } else {
      assert body + rest == rest;
    }
  }

  /** Blank lines add nothing to a requirement's text. */
  lemma BlankLineIgnored(blank: string, lines: seq<string>)
    requires IsBlank(blank)
    ensures BodyText(StripAll([blank] + lines)) == BodyText(StripAll(lines))
  {
    assert StripAll([blank] + lines) == [Strip(blank)] + StripAll(lines);
    assert Strip(blank) == [];
    assert ([Strip(blank)] + StripAll(lines))[1..] == StripAll(lines);
  }

  /** A line that does not start with the header word's first letter is not
      a header. */
  lemma NotHeader(t: string)
    requires |t| == 0 || t[0] != HeaderWord[0]
    ensures !IsHeader(t)
  {
  }

  /** Non-header preamble lines, then two headers each followed by its
      non-header body, give exactly two requirements, numbered 1 and 2, whose
      texts are the two bodies' texts. */
  lemma {:induction false} TwoHeaders(pre: seq<string>, h1: string, body1: seq<string>, h2: string, body2: seq<string>)
    requires forall k :: 0 <= k < |pre| ==> !IsHeader(pre[k])
    requires IsHeader(h1) && IsHeader(h2)
    requires forall k :: 0 <= k < |body1| ==> !IsHeader(body1[k])
    requires forall k :: 0 <= k < |body2| ==> !IsHeader(body2[k])
    ensures Entries(pre + ([h1] + body1 + ([h2] + body2)), 1) ==
      [Requirement(1, BodyText(body1), DefaultPattern), Requirement(2, BodyText(body2), DefaultPattern)]
  {
    var tail := [h2] + body2;
    assert Entries(tail, 2) == [Requirement(2, BodyText(body2), DefaultPattern)] by {
      HeaderThenBody(h2, body2, [], 2);
      assert tail + [] == tail;
      assert Entries([], 3) == [];
    }
    var lines := [h1] + body1 + tail;
    assert Entries(lines, 1) == [Requirement(1, BodyText(body1), DefaultPattern)] + Entries(tail, 2) by {
      assert tail[0] == h2;
      HeaderThenBody(h1, body1, tail, 1);
    }
    assert Entries(pre + lines, 1) == Entries(lines, 1) by {
      PreambleIgnored(pre, lines, 1);
    }
  }

  /** Preamble text, a header with two body lines and a blank line, and a
      second header with one body line give two requirements; each text is
      its stripped body lines, each followed by a space. */
  lemma EntriesExample()
    ensures Entries(["개선 결과", "요구사항 1:", "시스템은 로그인을 허용해야 한다", "", "3초 이내", "요구사항 2:", "B"], 1) ==
      [Requirement(1, "시스템은 로그인을 허용해야 한다 3초 이내 ", DefaultPattern), Requirement(2, "B ", DefaultPattern)]
  {
    var pre, h1, h2 := ["개선 결과"], "요구사항 1:", "요구사항 2:";
    var body1, body2 := ["시스템은 로그인을 허용해야 한다", "", "3초 이내"], ["B"];
    NotHeader(pre[0]);
    NotHeader(body1[0]);
    NotHeader(body1[1]);
    NotHeader(body1[2]);
    NotHeader(body2[0]);
    assert h1[..4] == HeaderWord && h2[..4] == HeaderWord;
    TwoHeaders(pre, h1, body1, h2, body2);
    assert pre + ([h1] + body1 + ([h2] + body2)) ==
      ["개선 결과", "요구사항 1:", "시스템은 로그인을 허용해야 한다", "", "3초 이내", "요구사항 2:", "B"];
    assert BodyText(body1) == "시스템은 로그인을 허용해야 한다 " + "" + "3초 이내 " by {
      assert body1[1..] == ["", "3초 이내"] && body1[2..] == ["3초 이내"] && body1[3..] == [];
    }
    assert "시스템은 로그인을 허용해야 한다 " + "" + "3초 이내 " == "시스템은 로그인을 허용해야 한다 3초 이내 ";
    assert BodyText(body2) == "B ";
  }
}
