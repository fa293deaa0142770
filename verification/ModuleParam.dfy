// Module options on the command line: parse_module_param, parse_module and parse_tv in src/conf.c.
// The argument is a list of modules set apart by commas. A module may have options behind a colon, which
// are set apart by semicolons, and an option may have a value behind an equals sign.
module ModuleParam {
  import opened Options
  import opened CStrings

  // tv_t and module_conf_t
  datatype Tv = Tv(typ: string, value: Option<string>)
  datatype Module = Module(name: string, attrs: seq<Tv>)

  // ---- what the argument means ----

  // s up to the first c.
  function Head(s: string, c: char): string {
    s[..Place(s, c)]
  }

  // s behind the first c.
  function Tail(s: string, c: char): string
    requires c in s
  {
    s[Place(s, c) + 1..]
  }

  function TvOf(s: string): Tv {
    Tv(Head(s, '='), if '=' in s then Some(Tail(s, '=')) else None)
  }

  function AttrsOf(s: string): seq<Tv>
    decreases |s|
  {
    [TvOf(Head(s, ';'))] + if ';' in s then AttrsOf(Tail(s, ';')) else []
  }

  function ModuleOf(s: string): Module {
    Module(Head(s, ':'), if ':' in s then AttrsOf(Tail(s, ':')) else [])
  }

  // None: a module without any text makes the program quit.
  function ParamOf(s: string): Option<seq<Module>>
    decreases |s|
  {
    if Head(s, ',') == "" then None
    else if ',' !in s then Some([ModuleOf(s)])
    else
      match ParamOf(Tail(s, ','))
      case None => None
      case Some(ms) => Some([ModuleOf(Head(s, ','))] + ms)
  }

  // ---- printing it again ----

  function Glue(h: string, c: char, t: string): string {
    h + [c] + t
  }

  function PrintTv(t: Tv): string {
    match t.value case None => t.typ case Some(v) => Glue(t.typ, '=', v)
  }

  function PrintAttrs(ts: seq<Tv>): string
    requires ts != []
  {
    if |ts| == 1 then PrintTv(ts[0]) else Glue(PrintTv(ts[0]), ';', PrintAttrs(ts[1..]))
  }

  function PrintModule(m: Module): string {
    if m.attrs == [] then m.name else Glue(m.name, ':', PrintAttrs(m.attrs))
  }

  function PrintParam(ms: seq<Module>): string
    requires ms != []
  {
    if |ms| == 1 then PrintModule(ms[0]) else Glue(PrintModule(ms[0]), ',', PrintParam(ms[1..]))
  }

  // A comma segment without text.
  ghost predicate HasEmptySegment(s: string) {
    || s == "" || s[0] == ',' || s[|s| - 1] == ','
    || exists i :: 0 <= i < |s| - 1 && s[i] == ',' && s[i + 1] == ','
  }

  lemma PlaceIn(s: string, c: char)
    ensures c !in s <==> Place(s, c) == |s|
  {
    if c in s {
      var i :| 0 <= i < |s| && s[i] == c;
      assert Place(s, c) <= i;
    }
  }

  lemma HeadTail(s: string, c: char)
    ensures c !in s <==> Place(s, c) == |s|
    ensures c !in s ==> Head(s, c) == s
    ensures c in s ==> s == Glue(Head(s, c), c, Tail(s, c))
    ensures c !in Head(s, c)
  {
    PlaceIn(s, c);
  }

  // A head without c is found again.
  lemma {:induction false} HeadFound(h: string, c: char, t: string)
    requires c !in h
    ensures Place(h, c) == |h| && Head(h, c) == h
    ensures Head(Glue(h, c, t), c) == h && c in Glue(h, c, t) && Tail(Glue(h, c, t), c) == t
  {
    HeadTail(h, c);
    var s := Glue(h, c, t);
    assert s[..|h|] == h && s[|h|] == c;
    PlaceIs(s, c, |h|);
    assert s[|h| + 1..] == t;
  }

  lemma PrintTvOf(s: string)
    ensures PrintTv(TvOf(s)) == s
  {
    HeadTail(s, '=');
  }

  lemma {:induction false} PrintAttrsOf(s: string)
    ensures PrintAttrs(AttrsOf(s)) == s
    decreases |s|
  {
    HeadTail(s, ';');
    PrintTvOf(Head(s, ';'));
    if ';' in s {
      PrintAttrsOf(Tail(s, ';'));
      assert AttrsOf(s)[1..] == AttrsOf(Tail(s, ';'));
    }
  }

  lemma PrintModuleOf(s: string)
    ensures PrintModule(ModuleOf(s)) == s
  {
    HeadTail(s, ':');
    if ':' in s {
      var h, t := Head(s, ':'), Tail(s, ':');
      PrintAttrsOf(t);
      assert PrintModule(ModuleOf(s)) == Glue(h, ':', t);
    }
  }

  // Parsing loses nothing: the parsed list prints as the argument itself.
  lemma {:induction false} ParsePrint(s: string)
    requires ParamOf(s).Some?
    ensures ParamOf(s).value != [] && PrintParam(ParamOf(s).value) == s
    decreases |s|
  {
    HeadTail(s, ',');
    var h := Head(s, ',');
    PrintModuleOf(h);
    if ',' in s {
      var t := Tail(s, ',');
      ParsePrint(t);
      var ms := ParamOf(t).value;
      assert ParamOf(s).value == [ModuleOf(h)] + ms;
      assert ([ModuleOf(h)] + ms)[1..] == ms;
      assert PrintParam([ModuleOf(h)] + ms) == Glue(h, ',', t);
    }
  }

  // The program quits exactly if some comma segment has no text.
  lemma {:induction false} QuitsOnEmptySegment(s: string)
    ensures ParamOf(s) == None <==> HasEmptySegment(s)
    decreases |s|
  {
    HeadTail(s, ',');
    if ',' in s && Head(s, ',') != "" {
      var k, t := Place(s, ','), Tail(s, ',');
      QuitsOnEmptySegment(t);
      assert forall i :: 0 <= i < |t| ==> t[i] == s[k + 1 + i];
      SegmentTail(s, k);
    }
  }

  lemma SegmentTail(s: string, k: nat)
    requires 0 < k < |s| && s[k] == ',' && ',' !in s[..k]
    ensures HasEmptySegment(s) <==> HasEmptySegment(s[k + 1..])
  {
    var t := s[k + 1..];
    assert forall i :: 0 <= i < k ==> s[i] == s[..k][i];
    if HasEmptySegment(t) && t != "" && t[0] != ',' && t[|t| - 1] != ',' {
      var i :| 0 <= i < |t| - 1 && t[i] == ',' && t[i + 1] == ',';
      assert s[k + 1 + i] == ',' && s[k + 1 + i + 1] == ',';
    }
    if t != "" && t[0] == ',' {
      assert s[k] == ',' && s[k + 1] == ',';
    }
    if HasEmptySegment(s) && s[|s| - 1] != ',' {
      var i :| 0 <= i < |s| - 1 && s[i] == ',' && s[i + 1] == ',';
      assert i >= k;
      if i > k { assert t[i - k - 1] == ',' && t[i - k - 1 + 1] == ','; }
    }
  }

  // ---- which lists survive printing and parsing ----

  ghost predicate GoodTv(t: Tv) {
    && ',' !in t.typ && ';' !in t.typ && '=' !in t.typ
    && (t.value.Some? ==> ',' !in t.value.value && ';' !in t.value.value)
  }

  ghost predicate GoodModule(m: Module) {
    && ',' !in m.name && ':' !in m.name
    && (m.name == "" ==> m.attrs != [])
    && forall i :: 0 <= i < |m.attrs| ==> GoodTv(m.attrs[i])
  }

  // Names, types and values are free of the separators that end them, and no module is empty text.
  ghost predicate Good(ms: seq<Module>) {
    forall i :: 0 <= i < |ms| ==> GoodModule(ms[i])
  }

  lemma TvOfPrint(t: Tv)
    requires GoodTv(t)
    ensures TvOf(PrintTv(t)) == t && ';' !in PrintTv(t) && ',' !in PrintTv(t)
  {
    match t.value
    case None =>
      HeadFound(t.typ, '=', "");
      assert PrintTv(t) == t.typ;
    case Some(v) =>
      HeadFound(t.typ, '=', v);
      assert PrintTv(t) == Glue(t.typ, '=', v);
  }

  lemma {:induction false} AttrsOfPrint(ts: seq<Tv>)
    requires ts != [] && forall i :: 0 <= i < |ts| ==> GoodTv(ts[i])
    ensures AttrsOf(PrintAttrs(ts)) == ts && ',' !in PrintAttrs(ts)
  {
    var h := PrintTv(ts[0]);
    TvOfPrint(ts[0]);
    if |ts| == 1 {
      HeadFound(h, ';', "");
      assert PrintAttrs(ts) == h;
    } else {
      var t := PrintAttrs(ts[1..]);
      AttrsOfPrint(ts[1..]);
      HeadFound(h, ';', t);
      assert PrintAttrs(ts) == Glue(h, ';', t);
    }
  }

  lemma ModuleOfPrint(m: Module)
    requires GoodModule(m)
    ensures ModuleOf(PrintModule(m)) == m && ',' !in PrintModule(m) && PrintModule(m) != ""
  {
    if m.attrs == [] {
      HeadFound(m.name, ':', "");
      assert PrintModule(m) == m.name;
    } else {
      var t := PrintAttrs(m.attrs);
      AttrsOfPrint(m.attrs);
      HeadFound(m.name, ':', t);
      assert PrintModule(m) == Glue(m.name, ':', t);
    }
  }

  lemma ParamOfGlue(h: string, t: string, ms: seq<Module>)
    requires ',' !in h && h != ""
    ensures ParamOf(h) == Some([ModuleOf(h)])
    ensures ParamOf(t) == Some(ms) ==> ParamOf(Glue(h, ',', t)) == Some([ModuleOf(h)] + ms)
  {
    HeadFound(h, ',', t);
  }

  lemma ParamOfMore(m: Module, ms: seq<Module>)
    requires GoodModule(m) && ms != [] && ParamOf(PrintParam(ms)) == Some(ms)
    ensures ParamOf(PrintParam([m] + ms)) == Some([m] + ms)
  {
    ModuleOfPrint(m);
    ParamOfGlue(PrintModule(m), PrintParam(ms), ms);
    assert ([m] + ms)[1..] == ms;
    assert PrintParam([m] + ms) == Glue(PrintModule(m), ',', PrintParam(ms));
  }

  lemma {:induction false} ParamOfPrint(ms: seq<Module>)
    requires ms != [] && Good(ms)
    ensures ParamOf(PrintParam(ms)) == Some(ms)
  {
    if |ms| == 1 {
      ModuleOfPrint(ms[0]);
      ParamOfGlue(PrintModule(ms[0]), "", []);
      assert [ms[0]] == ms;
    } else {
      ParamOfPrint(ms[1..]);
      ParamOfMore(ms[0], ms[1..]);
      assert [ms[0]] + ms[1..] == ms;
    }
  }

  lemma HeadFree(s: string, c: char, d: char)
    requires d !in s
    ensures d !in Head(s, c) && (c in s ==> d !in Tail(s, c))
  {
  }

  lemma {:induction false} AttrsOfGood(s: string)
    requires ',' !in s
    ensures forall i :: 0 <= i < |AttrsOf(s)| ==> GoodTv(AttrsOf(s)[i])
    decreases |s|
  {
    HeadTail(s, ';');
    HeadFree(s, ';', ',');
    var h := Head(s, ';');
    HeadTail(h, '=');
    HeadFree(h, '=', ',');
    HeadFree(h, '=', ';');
    if ';' in s { AttrsOfGood(Tail(s, ';')); }
  }

  lemma {:induction false} ParamOfGood(s: string)
    requires ParamOf(s).Some?
    ensures Good(ParamOf(s).value)
    decreases |s|
  {
    HeadTail(s, ',');
    ModuleOfGood(Head(s, ','));
    if ',' in s { ParamOfGood(Tail(s, ',')); }
  }

  lemma ModuleOfGood(h: string)
    requires ',' !in h && h != ""
    ensures GoodModule(ModuleOf(h))
  {
    HeadTail(h, ':');
    HeadFree(h, ':', ',');
    if ':' in h { AttrsOfGood(Tail(h, ':')); }
  }

  // Printing and parsing gives back a list exactly if its texts are free of their separators.
  lemma PrintParse(ms: seq<Module>)
    requires ms != []
    ensures ParamOf(PrintParam(ms)) == Some(ms) <==> Good(ms)
  {
    if Good(ms) { ParamOfPrint(ms); }
    if ParamOf(PrintParam(ms)) == Some(ms) { ParamOfGood(PrintParam(ms)); }
  }

  // The shape of an argument, written out: two modules, the first one with two options, one of them with a
  // value.
  lemma OptionsRead(name: string, typ: string, value: string, other: string, second: string)
    requires Bare(name) && Bare(typ) && Bare(value) && Bare(other) && Bare(second) && second != ""
    ensures ParamOf(name + ":" + (typ + "=" + value + ";" + other) + "," + second) ==
            Some([Module(name, [Tv(typ, Some(value)), Tv(other, None)]), Module(second, [])])
  {
    var attrs := [Tv(typ, Some(value)), Tv(other, None)];
    var first, last := Module(name, attrs), Module(second, []);
    PrintsAttrs(typ, value, other);
    PrintsModules(first, last);
    assert PrintModule(first) == name + ":" + PrintAttrs(attrs);
    assert GoodModule(first) && GoodModule(last);
    PrintParse([first, last]);
  }

  lemma PrintsAttrs(typ: string, value: string, other: string)
    ensures PrintAttrs([Tv(typ, Some(value)), Tv(other, None)]) == typ + "=" + value + ";" + other
  {
    var attrs := [Tv(typ, Some(value)), Tv(other, None)];
    assert attrs[1..] == [Tv(other, None)];
  }

  lemma PrintsModules(first: Module, last: Module)
    requires last.attrs == []
    ensures PrintParam([first, last]) == PrintModule(first) + "," + last.name
  {
    assert [first, last][1..] == [last];
  }

  // A text without any separator.
  ghost predicate Bare(s: string) {
    forall i :: 0 <= i < |s| ==> s[i] != ',' && s[i] != ':' && s[i] != ';' && s[i] != '='
  }

  // ---- the parsers ----

  // Nothing outside the string s at data has been written.
  twostate predicate OnlyInside(buf: array<char>, data: nat, s: string)
    reads buf
  {
    forall i :: 0 <= i < buf.Length && !(data <= i < data + |s|) ==> buf[i] == old(buf[i])
  }

  method EndAt(buf: array<char>, i: nat)
    requires i < buf.Length
    modifies buf
    ensures buf[..] == old(buf[..])[i := '\0']
    ensures forall j :: 0 <= j < buf.Length && j != i ==> buf[j] == old(buf[j])
  {
    buf[i] := '\0';
  }

  // Cuts the string s at data where the first c is: gives the place behind the cut.
  method Cut(buf: array<char>, data: nat, c: char, ghost s: string) returns (next: Option<nat>)
    requires Shows(buf[..], data, s) && c != '\0'
    modifies buf
    ensures OnlyInside(buf, data, s)
    ensures Shows(buf[..], data, Head(s, c))
    ensures next == if c in s then Some(data + Place(s, c) + 1) else None
    ensures c in s ==> Shows(buf[..], next.value, Tail(s, c))
  {
    ghost var b := buf[..];
    next := StrChr(buf, data, c, s);
    PlaceIn(s, c);
    if next.Some? {
      CutHere(b, data, s, c);
      EndAt(buf, next.value);
      next := Some(next.value + 1);
    }
  }

  lemma CutHere(b: seq<char>, data: nat, s: string, c: char)
    requires Shows(b, data, s) && c in s && Place(s, c) < |s|
    ensures Shows(b[data + Place(s, c) := '\0'], data, Head(s, c))
    ensures Shows(b[data + Place(s, c) := '\0'], data + Place(s, c) + 1, Tail(s, c))
  {
    ShowsCut(b, data, s, Place(s, c));
  }

  // parse_tv
  method ParseTv(buf: array<char>, data: nat, ghost s: string) returns (tv: Tv)
    requires Shows(buf[..], data, s)
    modifies buf
    ensures tv == TvOf(s)
    ensures OnlyInside(buf, data, s)
  {
    var value := Cut(buf, data, '=', s);
    ghost var b := buf[..];
    ShowsReads(b, data, Head(s, '='));
    if value.Some? {
      ShowsReads(b, value.value, Tail(s, '='));
      return Tv(CString(buf[..], data), Some(CString(buf[..], value.value)));
    }
    return Tv(CString(buf[..], data), None);
  }

  lemma ShowsKept(b: seq<char>, b': seq<char>, i: nat, text: string)
    requires Shows(b, i, text) && |b'| == |b|
    requires forall j :: i <= j <= i + |text| ==> b'[j] == b[j]
    ensures Shows(b', i, text)
  {
    assert b'[i..i + |text|] == b[i..i + |text|];
  }

  // One turn of the loop over the options: cut off one option and parse it.
  method NextTv(buf: array<char>, here: nat, ghost rest: string) returns (tv: Tv, next: Option<nat>)
    requires Shows(buf[..], here, rest)
    modifies buf
    ensures tv == TvOf(Head(rest, ';'))
    ensures next == if ';' in rest then Some(here + Place(rest, ';') + 1) else None
    ensures next.Some? ==> Shows(buf[..], next.value, Tail(rest, ';'))
    ensures OnlyInside(buf, here, rest)
  {
    HeadTail(rest, ';');
    next := Cut(buf, here, ';', rest);
    ghost var b := buf[..];
    tv := ParseTv(buf, here, Head(rest, ';'));
    if next.Some? {
      ghost var b' := buf[..];
      assert forall j :: here + Place(rest, ';') < j < |b| ==> b'[j] == b[j];
      ShowsKept(b, b', next.value, Tail(rest, ';'));
    }
  }

  lemma AttrsStep(rest: string, done: seq<Tv>)
    ensures done + AttrsOf(rest) ==
      done + [TvOf(Head(rest, ';'))] + if ';' in rest then AttrsOf(Tail(rest, ';')) else []
  {
  }

  // The loop over the options in parse_module.
  method ParseAttrs(buf: array<char>, data: nat, ghost s: string) returns (attrs: seq<Tv>)
    requires Shows(buf[..], data, s)
    modifies buf
    ensures attrs == AttrsOf(s)
    ensures OnlyInside(buf, data, s)
  {
    attrs := [];
    var opts: Option<nat> := Some(data);
    ghost var rest := s;
    while opts.Some?
      invariant opts.Some? ==> Shows(buf[..], opts.value, rest) && opts.value + |rest| == data + |s|
      invariant AttrsOf(s) == attrs + if opts.Some? then AttrsOf(rest) else []
      invariant OnlyInside(buf, data, s) && |rest| <= |s|
      decreases opts.Some?, |rest|
    {
      HeadTail(rest, ';');
      AttrsStep(rest, attrs);
      var tv;
      tv, opts := NextTv(buf, opts.value, rest);
      attrs := attrs + [tv];
      if opts.Some? { rest := Tail(rest, ';'); }
    }
  }

  // parse_module; None stands for quit.
  method ParseModule(buf: array<char>, data: nat, ghost s: string) returns (m: Option<Module>)
    requires Shows(buf[..], data, s)
    modifies buf
    ensures m == if s == "" then None else Some(ModuleOf(s))
    ensures OnlyInside(buf, data, s)
  {
    if buf[data] == '\0' { return None; }
    HeadTail(s, ':');
    var attrs := [];
    var opts := Cut(buf, data, ':', s);
    if opts.Some? {
      attrs := ParseAttrs(buf, opts.value, Tail(s, ':'));
    }
    ghost var b := buf[..];
    assert Shows(b, data, Head(s, ':'));
    ShowsReads(b, data, Head(s, ':'));
    return Some(Module(CString(buf[..], data), attrs));
  }

  // One turn of the loop over the modules.
  method NextModule(buf: array<char>, here: nat, ghost rest: string) returns (m: Option<Module>, next: Option<nat>)
    requires Shows(buf[..], here, rest)
    modifies buf
    ensures m == if Head(rest, ',') == "" then None else Some(ModuleOf(Head(rest, ',')))
    ensures next.Some? <==> ',' in rest
    ensures next.Some? ==> Shows(buf[..], next.value, Tail(rest, ','))
  {
    HeadTail(rest, ',');
    next := Cut(buf, here, ',', rest);
    ghost var b := buf[..];
    m := ParseModule(buf, here, Head(rest, ','));
    if next.Some? {
      ghost var b' := buf[..];
      assert forall j :: here + Place(rest, ',') < j < |b| ==> b'[j] == b[j];
      ShowsKept(b, b', next.value, Tail(rest, ','));
    }
  }

  // The modules found so far and those the text behind them means.
  ghost function Joined(done: seq<Module>, more: Option<seq<Module>>): Option<seq<Module>> {
    match more case None => None case Some(ms) => Some(done + ms)
  }

  lemma JoinedTwice(done: seq<Module>, m: Module, more: Option<seq<Module>>)
    ensures Joined(done, Joined([m], more)) == Joined(done + [m], more)
    ensures Joined(done, Some([m])) == Some(done + [m])
  {
    if more.Some? { assert done + ([m] + more.value) == done + [m] + more.value; }
  }

  lemma ParamStep(rest: string)
    ensures ParamOf(rest) ==
      if Head(rest, ',') == "" then None
      else if ',' in rest then Joined([ModuleOf(Head(rest, ','))], ParamOf(Tail(rest, ',')))
      else Some([ModuleOf(Head(rest, ','))])
  {
    HeadTail(rest, ',');
  }

  lemma JoinedNothing(more: Option<seq<Module>>)
    ensures Joined([], more) == more
  {
    if more.Some? { assert [] + more.value == more.value; }
  }

  // A fresh copy of data with its terminator.
  method StrDup(data: string) returns (buf: array<char>)
    requires '\0' !in data
    ensures fresh(buf) && Shows(buf[..], 0, data)
  {
    buf := new char[|data| + 1](i => if 0 <= i < |data| then data[i] else '\0');
    assert buf[..][0..|data|] == data;
  }

  // parse_module_param; None stands for quit.
  method ParseModuleParam(data: string) returns (list: Option<seq<Module>>)
    requires '\0' !in data
    ensures list == ParamOf(data)
  {
    var buf := StrDup(data);
    var current: Option<nat>, ms := Some(0), [];
    ghost var rest, whole := data, ParamOf(data);
    JoinedNothing(whole);
    while current.Some?
      invariant current.Some? ==> Shows(buf[..], current.value, rest)
      invariant whole == if current == None then Some(ms) else Joined(ms, ParamOf(rest))
      decreases current.Some?, |rest|
    {
      ParamStep(rest);
      ghost var left := if ',' in rest then ParamOf(Tail(rest, ',')) else None;
      JoinedTwice(ms, ModuleOf(Head(rest, ',')), left);
      var m;
      m, current := NextModule(buf, current.value, rest);
      if m == None { return None; }
      ms := ms + [m.value];
      if current.Some? { rest := Tail(rest, ','); }
    }
    return Some(ms);
  }
}
