// The format string of the formatted output: src/out_format.c.
// format_probe cuts one buffer into C strings in place and collects pointers into it; Grammar and
// Expand say what the result has to be.
module FormatTokens {
  import opened Options
  import opened Sequences
  import opened CStrings

  // ---- the grammar of format strings ----

  datatype Piece = Text(text: string) | Field(name: string)

  // The pieces of a format suffix: the literal characters up to the first boundary, and the pieces
  // behind it.
  datatype Split = Unclosed | Pieces(lead: string, rest: seq<Piece>)

  predicate Opens(s: string) {
    |s| >= 2 && s[0] == '$' && s[1] == '('
  }

  predicate IsEscape(c: char) {
    c == 'n' || c == 't' || c == 'r' || c == 'v' || c == 'b' || c == 'f' || c == 'a'
  }

  function Escape(c: char): char
    requires IsEscape(c)
  {
    if c == 'n' then '\n' else if c == 't' then '\t' else if c == 'r' then '\r'
    else if c == 'v' then 11 as char else if c == 'b' then 8 as char else if c == 'f' then 12 as char
    else 7 as char
  }

  predicate Escapes(s: string) {
    |s| >= 2 && s[0] == '\\' && IsEscape(s[1])
  }

  ghost function Closed(t: Split): seq<Piece>
    requires t.Pieces?
  {
    (if t.lead == "" then [] else [Text(t.lead)]) + t.rest
  }

  ghost function Grammar(s: string): Split
    decreases |s|
  {
    if s == "" then Pieces("", [])
    else if Opens(s) then
      var k := Place(s[2..], ')');
      if k == |s| - 2 then Unclosed
      else
        var t := Grammar(s[k + 3..]);
        if t.Unclosed? then Unclosed else Pieces("", [Field(s[2..k + 2])] + Closed(t))
    else if Escapes(s) then
      var t := Grammar(s[2..]);
      if t.Unclosed? then Unclosed else Pieces("", [Text([Escape(s[1])] + t.lead)] + t.rest)
    else
      var t := Grammar(s[1..]);
      if t.Unclosed? then Unclosed else Pieces([s[0]] + t.lead, t.rest)
  }

  ghost function Parse(s: string): Option<seq<Piece>> {
    var t := Grammar(s);
    if t.Unclosed? then None else Some(Closed(t))
  }

  // A format is rejected exactly if some "$(" has no ")" anywhere behind it.
  ghost predicate HasUnclosed(s: string) {
    exists i {:trigger Opens(s[i..])} :: 0 <= i < |s| && Opens(s[i..]) && ')' !in s[i + 2..]
  }

  lemma HasUnclosedTail(s: string, j: nat)
    requires j <= |s| && HasUnclosed(s[j..])
    ensures HasUnclosed(s)
  {
    var i :| 0 <= i < |s[j..]| && Opens(s[j..][i..]) && ')' !in s[j..][i + 2..];
    assert s[j..][i..] == s[j + i..] && s[j..][i + 2..] == s[j + i + 2..];
  }

  // How much of s its first piece takes; more than there is if that piece is not closed.
  ghost function Step(s: string): nat {
    if Opens(s) then Place(s[2..], ')') + 3 else if Escapes(s) then 2 else 1
  }

  // No "$(" without a ")" behind it lies inside the first piece.
  lemma UnclosedNotInside(s: string, i: nat)
    requires s != "" && Step(s) <= |s| && i < |s|
    requires Opens(s[i..]) && ')' !in s[i + 2..]
    ensures i >= Step(s)
  {
    assert s[0..] == s;
    assert s[i] == s[i..][0] && s[i + 1] == s[i..][1];
    assert forall m :: i + 2 <= m < |s| ==> s[m] == s[i + 2..][m - i - 2];
    assert Opens(s) ==> s[Step(s) - 1] == s[2..][Step(s) - 3] == ')';
  }

  lemma GrammarStep(s: string)
    requires s != ""
    ensures Step(s) > |s| ==> Grammar(s).Unclosed? && Opens(s) && ')' !in s[2..]
    ensures Step(s) <= |s| ==> (Grammar(s).Unclosed? <==> Grammar(s[Step(s)..]).Unclosed?)
  {
  }

  lemma UnclosedStep(s: string)
    requires s != "" && Step(s) <= |s|
    ensures HasUnclosed(s) <==> HasUnclosed(s[Step(s)..])
  {
    var j := Step(s);
    if HasUnclosed(s[j..]) { HasUnclosedTail(s, j); }
    if HasUnclosed(s) {
      var i :| 0 <= i < |s| && Opens(s[i..]) && ')' !in s[i + 2..];
      UnclosedNotInside(s, i);
      assert s[j..][i - j..] == s[i..] && s[j..][i - j + 2..] == s[i + 2..];
    }
  }

  lemma {:induction false} RejectedIffUnclosed(s: string)
    ensures Parse(s) == None <==> HasUnclosed(s)
    decreases |s|
  {
    if s != "" {
      GrammarStep(s);
      if Step(s) > |s| {
        assert s[0..] == s;
      } else {
        RejectedIffUnclosed(s[Step(s)..]);
        UnclosedStep(s);
      }
    }
  }

  // ---- what the output has to be ----

  // The format with every field and escape replaced on the spot.
  ghost function Expand(s: string, value: string -> string): string
    decreases |s|
  {
    if s == "" then ""
    else if Opens(s) then
      var k := Place(s[2..], ')');
      if k == |s| - 2 then "" else value(s[2..k + 2]) + Expand(s[k + 3..], value)
    else if Escapes(s) then [Escape(s[1])] + Expand(s[2..], value)
    else [s[0]] + Expand(s[1..], value)
  }

  ghost function Render(ps: seq<Piece>, value: string -> string): string {
    if ps == [] then ""
    else Part(ps[0], value) + Render(ps[1..], value)
  }

  lemma RenderClosed(t: Split, value: string -> string)
    requires t.Pieces?
    ensures Render(Closed(t), value) == t.lead + Render(t.rest, value)
  {
    if t.lead == "" {
      assert Closed(t) == t.rest;
    } else {
      assert Closed(t)[1..] == t.rest;
    }
  }

  ghost function Part(p: Piece, value: string -> string): string {
    match p case Text(t) => t case Field(n) => value(n)
  }

  lemma RenderOne(p: Piece, ps: seq<Piece>, value: string -> string)
    ensures Render([p] + ps, value) == Part(p, value) + Render(ps, value)
  {
    assert ([p] + ps)[1..] == ps;
  }

  // Rendering the pieces is the same as expanding the format directly.
  lemma {:induction false} RenderExpands(s: string, value: string -> string)
    requires Grammar(s).Pieces?
    ensures Render(Closed(Grammar(s)), value) == Expand(s, value)
    decreases |s|
  {
    RenderClosed(Grammar(s), value);
    if s != "" {
      GrammarStep(s);
      var rest := s[Step(s)..];
      RenderExpands(rest, value);
      RenderStep(s, value, Grammar(rest));
    }
  }

  lemma RenderStep(s: string, value: string -> string, t: Split)
    requires s != "" && Grammar(s).Pieces? && Step(s) <= |s|
    requires t == Grammar(s[Step(s)..]) && t.Pieces?
    requires Render(Closed(t), value) == Expand(s[Step(s)..], value)
    ensures Grammar(s).lead + Render(Grammar(s).rest, value) == Expand(s, value)
  {
    RenderClosed(t, value);
    if Opens(s) {
      RenderOne(Field(s[2..Step(s) - 1]), Closed(t), value);
    } else if Escapes(s) {
      RenderOne(Text([Escape(s[1])] + t.lead), t.rest, value);
      Associate([Escape(s[1])], t.lead, Render(t.rest, value));
    } else {
      Associate([s[0]], t.lead, Render(t.rest, value));
    }
  }

  // ---- what a format prints, written out ----

  // The seven escapes print the control characters 7 to 13.
  lemma EscapesPrint(i: nat, rest: string, value: string -> string)
    requires i < 7
    ensures Expand(['\\', "abtnvfr"[i]] + rest, value) == [(7 + i) as char] + Expand(rest, value)
  {
    EscapeCode("abtnvfr", i);
    EscapeFirst("abtnvfr"[i], rest, value);
  }

  lemma EscapeCode(letters: string, i: nat)
    requires letters == "abtnvfr" && i < 7
    ensures IsEscape(letters[i]) && Escape(letters[i]) == (7 + i) as char
  {
  }

  lemma EscapeFirst(c: char, rest: string, value: string -> string)
    requires IsEscape(c)
    ensures Expand(['\\', c] + rest, value) == [Escape(c)] + Expand(rest, value)
  {
    var s := ['\\', c] + rest;
    assert s[0] == '\\' && s[1] == c && s[2..] == rest;
  }

  // A name in "$(" and ")" prints its value.
  lemma FieldPrints(name: string, rest: string, value: string -> string)
    requires ')' !in name
    ensures Expand("$(" + name + ")" + rest, value) == value(name) + Expand(rest, value)
  {
    var s := "$(" + name + ")" + rest;
    var t := s[2..];
    assert t == name + ")" + rest && t[..|name|] == name && t[|name|] == ')';
    PlaceIs(t, ')', |name|);
    assert s[2..|name| + 2] == name && s[|name| + 3..] == rest;
  }

  // Any other character prints itself.
  lemma LiteralPrints(s: string, value: string -> string)
    requires s != "" && !(|s| >= 2 && s[0] == '$' && s[1] == '(')
    requires |s| >= 2 && s[0] == '\\' ==> forall i :: 0 <= i < 7 ==> s[1] != "abtnvfr"[i]
    ensures Expand(s, value) == [s[0]] + Expand(s[1..], value)
  {
    var e := "abtnvfr";
    assert e[0] == 'a' && e[1] == 'b' && e[2] == 't' && e[3] == 'n' && e[4] == 'v' && e[5] == 'f' && e[6] == 'r';
  }

  // What is printed for the part of a format in front of such a piece does not depend on what follows, if
  // that part does not end in the middle of a piece.
  lemma {:induction false} ExpandJoins(front: string, rest: string, value: string -> string)
    requires Complete(front)
    ensures Expand(front + rest, value) == Expand(front, value) + Expand(rest, value)
    decreases |front|
  {
    if front == "" {
      assert front + rest == rest;
    } else {
      CompleteTail(front);
      ExpandJoins(front[Step(front)..], rest, value);
      if Opens(front) { FieldJoins(front, rest, value); } else { CharJoins(front, rest, value); }
    }
  }

  // So an escape in the middle of a format prints its one character and leaves the rest alone.
  lemma EscapeInside(front: string, i: nat, rest: string, value: string -> string)
    requires Complete(front) && i < 7
    ensures Expand(front + ['\\', "abtnvfr"[i]] + rest, value) ==
            Expand(front, value) + [(7 + i) as char] + Expand(rest, value)
  {
    var e := ['\\', "abtnvfr"[i]];
    Associate(front, e, rest);
    ExpandJoins(front, e + rest, value);
    EscapesPrint(i, rest, value);
    Associate(Expand(front, value), [(7 + i) as char], Expand(rest, value));
  }

  lemma CharJoins(front: string, rest: string, value: string -> string)
    requires front != "" && !Opens(front) && Complete(front)
    requires Expand(front[Step(front)..] + rest, value) == Expand(front[Step(front)..], value) + Expand(rest, value)
    ensures Expand(front + rest, value) == Expand(front, value) + Expand(rest, value)
  {
    CharKept(front, rest);
    ExpandChar(front, value);
    ExpandChar(front + rest, value);
    var c := if Escapes(front) then Escape(front[1]) else front[0];
    Associate([c], Expand(front[Step(front)..], value), Expand(rest, value));
  }

  lemma ExpandChar(s: string, value: string -> string)
    requires s != "" && !Opens(s)
    ensures Expand(s, value) == [if Escapes(s) then Escape(s[1]) else s[0]] + Expand(s[Step(s)..], value)
  {
  }

  lemma CharKept(front: string, rest: string)
    requires front != "" && !Opens(front) && Complete(front)
    ensures var s := front + rest;
      && !Opens(s) && (Escapes(s) <==> Escapes(front)) && (Escapes(s) ==> s[1] == front[1])
      && s[0] == front[0] && Step(s) == Step(front) <= |front| && s[Step(s)..] == front[Step(front)..] + rest
  {
    var s := front + rest;
    assert s[0] == front[0] && (|front| >= 2 ==> s[1] == front[1]);
    DropFront(front, rest, Step(front));
  }

  lemma DropFront(a: string, b: string, n: nat)
    requires n <= |a|
    ensures (a + b)[n..] == a[n..] + b
  {
  }

  ghost predicate Complete(front: string) {
    !HasUnclosed(front) && (front != "" ==> front[|front| - 1] != '$' && front[|front| - 1] != '\\')
  }

  lemma CompleteTail(front: string)
    requires front != "" && Complete(front)
    ensures Step(front) <= |front| && Complete(front[Step(front)..])
  {
    GrammarStep(front);
    assert front[0..] == front;
    UnclosedStep(front);
  }

  lemma FieldJoins(front: string, rest: string, value: string -> string)
    requires Opens(front) && Step(front) <= |front|
    requires Expand(front[Step(front)..] + rest, value) == Expand(front[Step(front)..], value) + Expand(rest, value)
    ensures Expand(front + rest, value) == Expand(front, value) + Expand(rest, value)
  {
    var name, tail := front[2..Step(front) - 1], front[Step(front)..];
    FieldCut(front, name, tail);
    FieldAgain(name, tail, rest);
    FieldPrints(name, tail, value);
    FieldPrints(name, tail + rest, value);
    Associate(value(name), Expand(tail, value), Expand(rest, value));
  }

  lemma FieldCut(s: string, name: string, tail: string)
    requires Opens(s) && Step(s) <= |s| && name == s[2..Step(s) - 1] && tail == s[Step(s)..]
    ensures ')' !in name && s == "$(" + name + ")" + tail
  {
    var k := Step(s) - 3;
    assert s[2..][k] == s[k + 2];
    assert forall i :: 0 <= i < k ==> name[i] == s[2..][i];
  }

  lemma FieldAgain(name: string, tail: string, rest: string)
    ensures "$(" + name + ")" + tail + rest == "$(" + name + ")" + (tail + rest)
  {
    Associate("$(" + name + ")", tail, rest);
  }

  // ---- the token array ----

  datatype Kind = OT_STRING | OT_TOKEN
  datatype OutToken = OutToken(kind: Kind, str: nat)

  ghost function KindOf(p: Piece): Kind {
    if p.Text? then OT_STRING else OT_TOKEN
  }

  ghost function TextOf(p: Piece): string {
    match p case Text(t) => t case Field(n) => n
  }

  // The token points to the text of the piece, which ends before place end.
  ghost predicate Stands(b: seq<char>, t: OutToken, p: Piece, end: nat) {
    t.kind == KindOf(p) && Shows(b, t.str, TextOf(p)) && t.str + |TextOf(p)| < end
  }

  // The pieces found so far: done are closed, open is the text of a literal still growing.
  ghost function Resume(done: seq<Piece>, open: string, t: Split): Option<seq<Piece>> {
    if t.Unclosed? then None
    else if open == "" then Some(done + Closed(t))
    else Some(done + [Text(open + t.lead)] + t.rest)
  }

  // All pieces found so far, when the open literal ends here.
  ghost function Shut(done: seq<Piece>, open: string): seq<Piece> {
    done + if open == "" then [] else [Text(open)]
  }

  // The whole format still parses to what was found before p and the pieces from p on.
  ghost predicate Due(fmt: string, p: nat, done: seq<Piece>, open: string) {
    p <= |fmt| && Parse(fmt) == Resume(done, open, Grammar(fmt[p..]))
  }

  lemma ResumeShut(done: seq<Piece>, open: string, t: Split, more: seq<Piece>)
    requires t == Pieces("", more)
    ensures Resume(done, open, t) == Some(Shut(done, open) + more)
  {
    assert open + "" == open && [] + more == more && done + [] == done;
  }

  lemma DueField(fmt: string, p: nat, done: seq<Piece>, open: string, e: nat)
    requires Due(fmt, p, done, open) && Opens(fmt[p..])
    requires e == p + 2 + Place(fmt[p + 2..], ')') && e < |fmt|
    ensures Due(fmt, e + 1, Shut(done, open) + [Field(fmt[p + 2..e])], "")
  {
    var r, f := fmt[p..], [Field(fmt[p + 2..e])];
    assert r[2..] == fmt[p + 2..] && r[e - p + 1..] == fmt[e + 1..] && r[2..e - p] == fmt[p + 2..e];
    var t := Grammar(fmt[e + 1..]);
    if t.Pieces? {
      ResumeShut(done, open, Grammar(r), f + Closed(t));
      assert Shut(done, open) + (f + Closed(t)) == Shut(done, open) + f + Closed(t);
    }
  }

  lemma DueUnclosed(fmt: string, p: nat, done: seq<Piece>, open: string)
    requires Due(fmt, p, done, open) && Opens(fmt[p..]) && p + 2 <= |fmt|
    requires Place(fmt[p + 2..], ')') == |fmt| - p - 2
    ensures Parse(fmt) == None
  {
    assert fmt[p..][2..] == fmt[p + 2..];
  }

  lemma DueEscape(fmt: string, p: nat, done: seq<Piece>, open: string)
    requires Due(fmt, p, done, open) && !Opens(fmt[p..]) && Escapes(fmt[p..])
    ensures p + 1 < |fmt| && Due(fmt, p + 2, Shut(done, open), [Escape(fmt[p + 1])])
  {
    var r, c := fmt[p..], Escape(fmt[p + 1]);
    assert r[2..] == fmt[p + 2..] && r[1] == fmt[p + 1];
    var t := Grammar(fmt[p + 2..]);
    if t.Pieces? {
      ResumeShut(done, open, Grammar(r), [Text([c] + t.lead)] + t.rest);
      assert Shut(done, open) + ([Text([c] + t.lead)] + t.rest) == Shut(done, open) + [Text([c] + t.lead)] + t.rest;
    }
  }

  lemma DueLiteral(fmt: string, p: nat, done: seq<Piece>, open: string)
    requires Due(fmt, p, done, open) && p < |fmt| && !Opens(fmt[p..]) && !Escapes(fmt[p..])
    ensures Due(fmt, p + 1, done, open + [fmt[p]])
  {
    var r := fmt[p..];
    assert r[1..] == fmt[p + 1..] && r[0] == fmt[p];
    var t := Grammar(fmt[p + 1..]);
    if t.Pieces? {
      assert open + ([fmt[p]] + t.lead) == open + [fmt[p]] + t.lead;
      if open == "" {
        assert open + [fmt[p]] == [fmt[p]];
        assert Closed(Grammar(r)) == [Text([fmt[p]] + t.lead)] + t.rest;
        assert done + ([Text([fmt[p]] + t.lead)] + t.rest) == done + [Text([fmt[p]] + t.lead)] + t.rest;
      }
    }
  }

  // Place p of the scan: the buffer b held the string fmt, the tokens toks stand for the pieces done
  // and, last, for the literal open; from p on the buffer is still as it was.
  ghost predicate Held(b: seq<char>, fmt: string, toks: seq<OutToken>, p: nat, done: seq<Piece>, open: string) {
    && p <= |fmt| < |b| && b[|fmt|] == '\0' && '\0' !in fmt
    && (forall j :: p <= j < |fmt| ==> b[j] == fmt[j])
    && |toks| == |done| + (if open == "" then 0 else 1)
    && (forall i :: 0 <= i < |done| ==> Stands(b, toks[i], done[i], p))
    && (open != "" ==> Growing(b, toks[|done|], open, p))
  }

  ghost predicate Growing(b: seq<char>, t: OutToken, open: string, p: nat) {
    t.kind == OT_STRING && t.str + |open| == p <= |b| && b[t.str..p] == open && '\0' !in open
  }

  // Writes from p on that put the terminator at p close the open literal and leave the rest alone.
  lemma ShutStands(b: seq<char>, b': seq<char>, fmt: string, toks: seq<OutToken>, p: nat, done: seq<Piece>,
                   open: string, end: nat)
    requires Held(b, fmt, toks, p, done, open) && p < end
    requires |b'| == |b| && b'[..p] == b[..p] && b'[p] == '\0'
    ensures |Shut(done, open)| == |toks|
    ensures forall i :: 0 <= i < |toks| ==> Stands(b', toks[i], Shut(done, open)[i], end)
  {
    forall i | 0 <= i < |toks| ensures Stands(b', toks[i], Shut(done, open)[i], end) {
      if i < |done| {
        assert Stands(b, toks[i], done[i], p);
        StillStands(b, b', toks[i], done[i], p, end);
      } else {
        OpenStands(b, b', toks[i], open, p, end);
      }
    }
  }

  lemma StillStands(b: seq<char>, b': seq<char>, t: OutToken, piece: Piece, p: nat, end: nat)
    requires Stands(b, t, piece, p) && p < end
    requires |b'| == |b| >= p && b'[..p] == b[..p]
    ensures Stands(b', t, piece, end)
  {
    var at, text := t.str, TextOf(piece);
    PrefixSlice(b, p, at, at + |text|);
    PrefixSlice(b', p, at, at + |text|);
  }

  lemma OpenStands(b: seq<char>, b': seq<char>, t: OutToken, open: string, p: nat, end: nat)
    requires Growing(b, t, open, p) && p < end
    requires p < |b'| == |b| && b'[..p] == b[..p] && b'[p] == '\0'
    ensures Stands(b', t, Text(open), end)
  {
    assert b'[t.str..p] == b'[..p][t.str..p] == b[..p][t.str..p];
  }

  lemma HeldField(b: seq<char>, fmt: string, toks: seq<OutToken>, p: nat, done: seq<Piece>, open: string, e: nat)
    requires Held(b, fmt, toks, p, done, open) && p + 2 <= e < |fmt|
    ensures Held(b[p := '\0'][e := '\0'], fmt, toks + [OutToken(OT_TOKEN, p + 2)], e + 1,
                 Shut(done, open) + [Field(fmt[p + 2..e])], "")
  {
    var b', name := b[p := '\0'][e := '\0'], fmt[p + 2..e];
    ShutStands(b, b', fmt, toks, p, done, open, e + 1);
    assert b'[p + 2..p + 2 + |name|] == name;
    assert Stands(b', OutToken(OT_TOKEN, p + 2), Field(name), e + 1);
  }

  lemma HeldEscape(b: seq<char>, fmt: string, toks: seq<OutToken>, p: nat, done: seq<Piece>, open: string, c: char)
    requires Held(b, fmt, toks, p, done, open) && p + 1 < |fmt| && c != '\0'
    ensures Held(b[p + 1 := c][p := '\0'], fmt, toks + [OutToken(OT_STRING, p + 1)], p + 2, Shut(done, open), [c])
  {
    var b' := b[p + 1 := c][p := '\0'];
    ShutStands(b, b', fmt, toks, p, done, open, p + 2);
    assert b'[p + 1..p + 2] == [c];
  }

  lemma HeldLiteral(b: seq<char>, fmt: string, toks: seq<OutToken>, p: nat, done: seq<Piece>, open: string)
    requires Held(b, fmt, toks, p, done, open) && p < |fmt|
    ensures Held(b, fmt, if open == "" then toks + [OutToken(OT_STRING, p)] else toks, p + 1, done, open + [fmt[p]])
  {
    var toks' := if open == "" then toks + [OutToken(OT_STRING, p)] else toks;
    forall i | 0 <= i < |done| ensures Stands(b, toks'[i], done[i], p + 1) {
      assert Stands(b, toks[i], done[i], p);
    }
    var st := toks'[|done|].str;
    assert b[st..p + 1] == b[st..p] + [b[p]];
  }

  // Looking one character ahead in the buffer is looking at the format.
  lemma Lookahead(b: seq<char>, fmt: string, toks: seq<OutToken>, p: nat, done: seq<Piece>, open: string)
    requires Held(b, fmt, toks, p, done, open) && b[p] != '\0'
    ensures p < |fmt| && b[p] == fmt[p]
    ensures Opens(fmt[p..]) <==> b[p] == '$' && b[p + 1] == '('
    ensures Escapes(fmt[p..]) <==> b[p] == '\\' && IsEscape(b[p + 1])
    ensures Escapes(fmt[p..]) ==> fmt[p + 1] == b[p + 1] && Escape(b[p + 1]) != '\0'
    ensures p + 2 <= |fmt| ==> b[p + 2..|fmt|] == fmt[p + 2..]
  {
    var r := fmt[p..];
    assert r[0] == fmt[p] && (|r| > 1 ==> r[1] == fmt[p + 1]);
    assert p + 1 == |fmt| ==> b[p + 1] == '\0';
  }

  lemma HeldStart(b: seq<char>, fmt: string)
    requires |fmt| < |b| && b[..|fmt|] == fmt && b[|fmt|] == '\0' && '\0' !in fmt
    ensures Held(b, fmt, [], 0, [], "") && Due(fmt, 0, [], "")
  {
    assert fmt[0..] == fmt;
    if Grammar(fmt).Pieces? { assert [] + Closed(Grammar(fmt)) == Closed(Grammar(fmt)); }
  }

  // At the end of the string every token reads as its piece.
  lemma HeldEnd(b: seq<char>, fmt: string, toks: seq<OutToken>, done: seq<Piece>, open: string)
    requires Held(b, fmt, toks, |fmt|, done, open) && Due(fmt, |fmt|, done, open)
    ensures Parse(fmt) == Some(Shut(done, open)) && |Shut(done, open)| == |toks|
    ensures forall i :: 0 <= i < |toks| ==> Reads(b, toks[i], Shut(done, open)[i])
  {
    assert fmt[|fmt|..] == "";
    ResumeShut(done, open, Pieces("", []), []);
    assert Shut(done, open) + [] == Shut(done, open);
    ShutStands(b, b, fmt, toks, |fmt|, done, open, |b|);
    forall i | 0 <= i < |toks| ensures Reads(b, toks[i], Shut(done, open)[i]) {
      assert Stands(b, toks[i], Shut(done, open)[i], |b|);
      ShowsReads(b, toks[i].str, TextOf(Shut(done, open)[i]));
    }
  }

  // The C string behind the token is the text of the piece.
  ghost predicate Reads(b: seq<char>, t: OutToken, p: Piece) {
    t.kind == KindOf(p) && CString(b, t.str) == TextOf(p)
  }

  class FormatOutput {
    var format: array<char>      // c_format
    var tokens: array<OutToken>  // out_tokens, of size out_tokens_size
    var count: nat               // token_index

    ghost predicate Valid()
      reads this
    {
      count <= tokens.Length
    }

    constructor (fmt: array<char>)
      ensures Valid() && format == fmt && count == 0 && fresh(tokens)
    {
      format, count := fmt, 0;
      tokens := new OutToken[0];
    }

    // add_token; the tokens before place c0 belong to earlier formats.
    method AddToken(kind: Kind, str: nat, ghost c0: nat)
      requires Valid() && c0 <= count
      modifies this`tokens, this`count, tokens
      ensures Valid() && c0 < count && (tokens == old(tokens) || fresh(tokens))
      ensures tokens[..c0] == old(tokens[..c0])
      ensures tokens[c0..count] == old(tokens[c0..count]) + [OutToken(kind, str)]
    {
      if tokens.Length == 0 {
        tokens := new OutToken[32];
      }
      if tokens.Length <= count {
        var bigger := new OutToken[tokens.Length + 32];
        forall i | 0 <= i < count {
          bigger[i] := tokens[i];
        }
        tokens := bigger;
      }
      tokens[count] := OutToken(kind, str);
      count := count + 1;
    }

    ghost predicate Scanned(c0: nat, fmt: string, p: nat, done: seq<Piece>, open: string)
      reads this, format, tokens
    {
      && c0 <= count <= tokens.Length
      && Held(format[..], fmt, tokens[c0..count], p, done, open)
    }

    // Writes a terminator.
    method EndAt(i: nat)
      requires i < format.Length
      modifies format
      ensures format[..] == old(format[..])[i := '\0']
    {
      format[i] := '\0';
    }

    // "$(" at p and ")" at e.
    method TakeField(p: nat, e: nat, ghost c0: nat, ghost fmt: string, ghost done: seq<Piece>, ghost open: string)
      requires Scanned(c0, fmt, p, done, open)
      requires p + 2 <= e < |fmt|
      modifies this`tokens, this`count, tokens, format
      ensures Scanned(c0, fmt, e + 1, Shut(done, open) + [Field(fmt[p + 2..e])], "")
      ensures (tokens == old(tokens) || fresh(tokens)) && tokens[..c0] == old(tokens[..c0])
    {
      ghost var b, toks := format[..], tokens[c0..count];
      HeldField(b, fmt, toks, p, done, open, e);
      EndAt(p);
      EndAt(e);
      AddToken(OT_TOKEN, p + 2, c0);
      assert format[..] == b[p := '\0'][e := '\0'] && tokens[c0..count] == toks + [OutToken(OT_TOKEN, p + 2)];
    }

    // A backslash at p and a letter to replace behind it.
    method TakeEscape(p: nat, ghost c0: nat, ghost fmt: string, ghost done: seq<Piece>, ghost open: string)
      requires Scanned(c0, fmt, p, done, open)
      requires p + 1 < |fmt| && format[p + 1] == fmt[p + 1] && IsEscape(fmt[p + 1])
      modifies this`tokens, this`count, tokens, format
      ensures Scanned(c0, fmt, p + 2, Shut(done, open), [Escape(fmt[p + 1])])
      ensures (tokens == old(tokens) || fresh(tokens)) && tokens[..c0] == old(tokens[..c0])
    {
      var s := p + 1;
      HeldEscape(format[..], fmt, tokens[c0..count], p, done, open, Escape(format[s]));
      format[s] := Escape(format[s]);
      format[p] := '\0';
      AddToken(OT_STRING, s, c0);
      assert format[..] == old(format[..])[s := Escape(fmt[s])][p := '\0'];
    }

    // A literal character at p.
    method TakeLiteral(p: nat, newOne: bool, ghost c0: nat, ghost fmt: string, ghost done: seq<Piece>,
                       ghost open: string)
      requires Scanned(c0, fmt, p, done, open) && newOne == (open == "")
      requires p < |fmt|
      modifies this`tokens, this`count, tokens
      ensures Scanned(c0, fmt, p + 1, done, open + [fmt[p]])
      ensures (tokens == old(tokens) || fresh(tokens)) && tokens[..c0] == old(tokens[..c0])
    {
      HeldLiteral(format[..], fmt, tokens[c0..count], p, done, open);
      if newOne {
        AddToken(OT_STRING, p, c0);
      }
    }

    // The ")" behind "$(" at p, if there is one.
    method FindClose(p: nat, ghost fmt: string) returns (e: Option<nat>)
      requires p + 2 <= |fmt| < format.Length && format[|fmt|] == '\0' && '\0' !in fmt
      requires format[p + 2..|fmt|] == fmt[p + 2..]
      ensures var k := Place(fmt[p + 2..], ')');
        e == if k == |fmt| - p - 2 then None else Some(p + 2 + k)
    {
      var s := p + 2;
      ghost var b := format[..];
      assert b[s..s + |fmt[s..]|] == fmt[s..];
      if format[s] == '\0' { return None; }   // unexpected end
      e := StrChr(format, s, ')', fmt[s..]);   // None if there is no ')'
    }

    // The part of format_probe behind "$(" at p: gives the place behind the ")", if there is one.
    method ProbeField(p: nat, ghost c0: nat, ghost fmt: string, ghost done: seq<Piece>, ghost open: string)
      returns (next: Option<nat>, ghost done': seq<Piece>)
      requires Scanned(c0, fmt, p, done, open) && Due(fmt, p, done, open) && Opens(fmt[p..])
      requires format[p + 2..|fmt|] == fmt[p + 2..]
      modifies this`tokens, this`count, tokens, format
      ensures c0 <= count <= tokens.Length
      ensures next == None ==> Parse(fmt) == None
      ensures next.Some? ==> p < next.value <= |fmt|
      ensures next.Some? ==> Scanned(c0, fmt, next.value, done', "") && Due(fmt, next.value, done', "")
      ensures (tokens == old(tokens) || fresh(tokens)) && tokens[..c0] == old(tokens[..c0])
    {
      done' := done;
      var e := FindClose(p, fmt);
      if e == None {
        DueUnclosed(fmt, p, done, open);
        return None, done';
      }
      DueField(fmt, p, done, open, e.value);
      TakeField(p, e.value, c0, fmt, done, open);
      done' := Shut(done, open) + [Field(fmt[p + 2..e.value])];
      next := Some(e.value + 1);
    }

    // One turn of the loop in format_probe at place p. No next place means failure.
    method ProbeOne(p: nat, newOne: bool, ghost c0: nat, ghost fmt: string, ghost done: seq<Piece>, ghost open: string)
      returns (next: Option<nat>, newOne': bool, ghost done': seq<Piece>, ghost open': string)
      requires Scanned(c0, fmt, p, done, open) && Due(fmt, p, done, open) && newOne == (open == "")
      requires p < format.Length && format[p] != '\0'
      modifies this`tokens, this`count, tokens, format
      ensures c0 <= count <= tokens.Length
      ensures next == None ==> Parse(fmt) == None
      ensures next.Some? ==> p < next.value <= |fmt| && newOne' == (open' == "")
      ensures next.Some? ==> Scanned(c0, fmt, next.value, done', open') && Due(fmt, next.value, done', open')
      ensures (tokens == old(tokens) || fresh(tokens)) && tokens[..c0] == old(tokens[..c0])
    {
      ghost var b, toks := format[..], tokens[c0..count];
      Lookahead(b, fmt, toks, p, done, open);
      if format[p] == '$' && format[p + 1] == '(' {
        assert format[p + 2..|fmt|] == b[p + 2..|fmt|];
        next, done' := ProbeField(p, c0, fmt, done, open);
        newOne', open' := true, "";
        return;
      }
      if format[p] == '\\' && IsEscape(format[p + 1]) {
        DueEscape(fmt, p, done, open);
        TakeEscape(p, c0, fmt, done, open);
        return Some(p + 2), false, Shut(done, open), [Escape(fmt[p + 1])];
      }
      DueLiteral(fmt, p, done, open);
      TakeLiteral(p, newOne, c0, fmt, done, open);
      return Some(p + 1), false, done, open + [fmt[p]];
    }

    // The loop of format_probe.
    method ProbeLoop(ghost fmt: string) returns (ok: bool, ghost done: seq<Piece>, ghost open: string)
      requires Valid() && '\0' !in fmt
      requires |fmt| < format.Length && format[..|fmt|] == fmt && format[|fmt|] == '\0'
      modifies this`tokens, this`count, tokens, format
      ensures old(count) <= count <= tokens.Length && tokens[..old(count)] == old(tokens[..count])
      ensures ok ==> Scanned(old(count), fmt, |fmt|, done, open) && Due(fmt, |fmt|, done, open)
      ensures !ok ==> Parse(fmt) == None
    {
      var newOne := true;
      var p := 0;
      done, open := [], "";
      ghost var c0, b := count, format[..];
      HeldStart(b, fmt);
      assert tokens[c0..count] == [];
      while format[p] != '\0'
        invariant p <= |fmt| && Scanned(c0, fmt, p, done, open) && newOne == (open == "")
        invariant Due(fmt, p, done, open)
        invariant (tokens == old(tokens) || fresh(tokens)) && tokens[..c0] == old(tokens[..count])
        decreases |fmt| - p
      {
        var next;
        next, newOne, done, open := ProbeOne(p, newOne, c0, fmt, done, open);
        if next == None { return false, done, open; }
        p := next.value;
      }
      return true, done, open;
    }

    // format_probe: cuts the C string in the format buffer. It fails exactly if a "$(" has no ")"
    // behind it, and otherwise appends one token for every piece of the format.
    method FormatProbe(ghost fmt: string) returns (ok: bool, ghost pieces: seq<Piece>)
      requires Valid() && '\0' !in fmt
      requires |fmt| < format.Length && format[..|fmt|] == fmt && format[|fmt|] == '\0'
      modifies this`tokens, this`count, tokens, format
      ensures Valid()
      ensures ok <==> !HasUnclosed(fmt)
      ensures ok ==> Parse(fmt) == Some(pieces)
      ensures ok ==> count == old(count) + |pieces| && tokens[..old(count)] == old(tokens[..count])
      ensures ok ==> forall i :: 0 <= i < |pieces| ==> Reads(format[..], tokens[old(count) + i], pieces[i])
    {
      RejectedIffUnclosed(fmt);
      ghost var done, open;
      ok, done, open := ProbeLoop(fmt);
      pieces := Shut(done, open);
      if ok {
        ghost var b, toks := format[..], tokens[old(count)..count];
        HeldEnd(b, fmt, toks, done, open);
      }
    }

    // draw_element: what is printed for one element, if value gives the text of each field.
    method DrawElement(value: string -> string, ghost pieces: seq<Piece>) returns (out: string)
      requires Valid() && |pieces| == count
      requires forall i :: 0 <= i < count ==> Reads(format[..], tokens[i], pieces[i])
      ensures out == Render(pieces, value)
    {
      out := "";
      var i := 0;
      while i < count
        invariant 0 <= i <= count && out + Render(pieces[i..], value) == Render(pieces, value)
      {
        var text := CString(format[..], tokens[i].str);
        var part := if tokens[i].kind == OT_STRING then text else value(text);
        assert pieces[i..] == [pieces[i]] + pieces[i + 1..];
        RenderOne(pieces[i], pieces[i + 1..], value);
        Associate(out, part, Render(pieces[i + 1..], value));
        assert part == Part(pieces[i], value);
        out := out + part;
        i := i + 1;
      }
    }
  }

  // Probing a format and drawing an element prints the format with all fields and escapes replaced.
  method ProbeAndDraw(buffer: array<char>, ghost fmt: string, value: string -> string) returns (out: Option<string>)
    requires '\0' !in fmt && |fmt| < buffer.Length && buffer[..|fmt|] == fmt && buffer[|fmt|] == '\0'
    modifies buffer
    ensures out == if HasUnclosed(fmt) then None else Some(Expand(fmt, value))
  {
    var o := new FormatOutput(buffer);
    var ok, pieces := o.FormatProbe(fmt);
    if !ok { return None; }
    RenderExpands(fmt, value);
    var s := o.DrawElement(value, pieces);
    return Some(s);
  }
}
