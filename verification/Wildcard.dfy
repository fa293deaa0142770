// The interface selection policy: match_mask and element_allowed in src/element.c.
module Wildcard {

  // A C string without its terminator.
  ghost predicate NoNul(s: string) {
    forall i :: 0 <= i < |s| ==> s[i] != '\0'
  }

  // The character at i, which may be the terminator but nothing behind it.
  function At(s: string, i: nat): char
    requires i <= |s|
  {
    if i < |s| then s[i] else '\0'
  }

  // tolower in the C locale.
  function Fold(c: char): char {
    if 'A' <= c <= 'Z' then (c as int + 32) as char else c
  }

  // It maps the 26 capital letters to the small ones and nothing else anywhere.
  lemma FoldLetters(i: nat, c: char)
    requires i < 26
    ensures Fold((65 + i) as char) == Fold((97 + i) as char) == (97 + i) as char
    ensures !('A' <= c <= 'Z') ==> Fold(c) == c
  {
  }

  // Two texts that differ in the case of letters only.
  ghost predicate SameButCase(a: string, b: string) {
    && |a| == |b|
    && forall i :: 0 <= i < |a| ==>
         a[i] == b[i] || (65 <= a[i] as int <= 90 && b[i] as int == a[i] as int + 32)
         || (65 <= b[i] as int <= 90 && a[i] as int == b[i] as int + 32)
  }

  lemma FoldSame(a: char, b: char)
    ensures Fold(a) == Fold(b) <==> SameButCase([a], [b])
  {
    assert [a][0] == a && [b][0] == b;
    if SameButCase([a], [b]) {
      assert a == b || (65 <= a as int <= 90 && b as int == a as int + 32)
             || (65 <= b as int <= 90 && a as int == b as int + 32);
    }
  }

  // The documented meaning: '*' stands for any characters, all others for themselves.
  ghost predicate Matches(rule: string, str: string)
    decreases |rule|
  {
    if rule == "" then str == ""
    else if rule[0] == '*' then exists k :: 0 <= k <= |str| && Matches(rule[1..], str[k..])
    else str != "" && Fold(rule[0]) == Fold(str[0]) && Matches(rule[1..], str[1..])
  }

  // The first place of the folded character c, or |str|.
  ghost function FirstOf(str: string, c: char): (k: nat)
    ensures k <= |str|
    ensures k < |str| ==> Fold(str[k]) == c
    ensures forall i :: 0 <= i < k ==> Fold(str[i]) != c
  {
    if str == "" || Fold(str[0]) == c then 0 else 1 + FirstOf(str[1..], c)
  }

  // What match_mask decides: a star that is not last reaches up to the first occurrence of the
  // character behind it, without a second try.
  ghost predicate Accepts(rule: string, str: string)
    decreases |rule|
  {
    if rule == "" then str == ""
    else if rule[0] == '*' then
      rule[1..] == "" ||
      var k := FirstOf(str, Fold(rule[1]));
      k < |str| && Accepts(rule[1..], str[k..])
    else str != "" && Fold(rule[0]) == Fold(str[0]) && Accepts(rule[1..], str[1..])
  }

  method MatchMask(rule: string, str: string) returns (r: bool)
    requires NoNul(rule) && NoNul(str)
    ensures r == Accepts(rule, str)
  {
    var i, n := 0, 0;
    assert rule[0..] == rule && str[0..] == str;
    while At(rule, i) != '\0'
      invariant 0 <= i <= |rule| && 0 <= n <= |str|
      invariant Accepts(rule, str) == Accepts(rule[i..], str[n..])
      decreases |rule| - i
    {
      assert rule[i..][0] == rule[i] && rule[i..][1..] == rule[i + 1..];
      if At(rule, i) == '*' {
        var c := Fold(At(rule, i + 1));
        if c == '\0' {
          return true;
        }
        assert rule[i..][1] == rule[i + 1];
        ghost var from, k := n, FirstOf(str[n..], c);
        while Fold(At(str, n)) != c
          invariant from <= n <= |str| && n <= from + k
          decreases |str| - n
        {
          assert n < |str| ==> str[from..][n - from] == str[n];
          n := n + 1;
          if At(str, n - 1) == '\0' {
            return false;
          }
        }
        assert n < |str| && str[from..][n - from] == str[n];
        assert str[from..][k..] == str[n..];
      } else {
        n := n + 1;
        if Fold(At(rule, i)) != Fold(At(str, n - 1)) {
          return false;
        }
        assert str[n - 1..][1..] == str[n..];
      }
      i := i + 1;
    }
    r := At(str, n) == '\0';
  }

  // Whatever match_mask accepts is in the documented language of the rule.
  lemma {:induction false} AcceptsSound(rule: string, str: string)
    requires Accepts(rule, str)
    ensures Matches(rule, str)
    decreases |rule|
  {
    if rule == "" {
    } else if rule[0] != '*' {
      AcceptsSound(rule[1..], str[1..]);
    } else if rule[1..] == "" {
      assert str[|str|..] == "" && Matches("", "");
    } else {
      AcceptsSound(rule[1..], str[FirstOf(str, Fold(rule[1]))..]);
    }
  }

  // A rule without stars accepts exactly the names that differ from it in case only.
  lemma {:induction false} LiteralIff(rule: string, str: string)
    requires '*' !in rule
    ensures Accepts(rule, str) <==> SameButCase(rule, str)
    decreases |rule|
  {
    if rule != "" && str != "" {
      FoldSame(rule[0], str[0]);
      LiteralIff(rule[1..], str[1..]);
      SameParts(rule, str);
    }
  }

  lemma SameParts(a: string, b: string)
    requires a != "" && b != ""
    ensures SameButCase(a, b) <==> SameButCase([a[0]], [b[0]]) && SameButCase(a[1..], b[1..])
  {
    if SameButCase([a[0]], [b[0]]) && SameButCase(a[1..], b[1..]) {
      forall i | 0 <= i < |a|
        ensures a[i] == b[i] || (65 <= a[i] as int <= 90 && b[i] as int == a[i] as int + 32)
                || (65 <= b[i] as int <= 90 && a[i] as int == b[i] as int + 32)
      {
        if i == 0 { assert [a[0]][0] == a[0] && [b[0]][0] == b[0]; } else { assert a[1..][i - 1] == a[i]; }
      }
    }
    if SameButCase(a, b) {
      assert forall i :: 0 <= i < |a[1..]| ==> a[1..][i] == a[i + 1] && b[1..][i] == b[i + 1];
    }
  }

  // A star alone accepts every name, and the case of a name never matters.
  lemma {:induction false} CaseBlind(rule: string, a: string, b: string)
    requires SameButCase(a, b)
    ensures Accepts(rule, a) <==> Accepts(rule, b)
    ensures Accepts("*", a)
    decreases |rule|
  {
    if rule == "" {
    } else if rule[0] != '*' {
      if a != "" {
        FoldSame(a[0], b[0]);
        SameParts(a, b);
        CaseBlind(rule[1..], a[1..], b[1..]);
      }
    } else if rule[1..] != "" {
      var k := FirstOf(a, Fold(rule[1]));
      FirstBlind(a, b, Fold(rule[1]));
      SameTail(a, b, k);
      CaseBlind(rule[1..], a[k..], b[k..]);
    }
  }

  lemma SameTail(a: string, b: string, k: nat)
    requires SameButCase(a, b) && k <= |a|
    ensures SameButCase(a[k..], b[k..])
  {
    assert forall i :: 0 <= i < |a[k..]| ==> a[k..][i] == a[k + i] && b[k..][i] == b[k + i];
  }

  lemma {:induction false} FirstBlind(a: string, b: string, c: char)
    requires SameButCase(a, b)
    ensures FirstOf(a, c) == FirstOf(b, c)
  {
    if a != "" {
      FoldSame(a[0], b[0]);
      SameParts(a, b);
      FirstBlind(a[1..], b[1..], c);
    }
  }

  // The expansions in which no star but a last one covers the character behind it.
  ghost predicate LazilyMatches(rule: string, str: string)
    decreases |rule|
  {
    if rule == "" then str == ""
    else if rule[0] == '*' then
      exists k ::
        && 0 <= k <= |str|
        && (rule[1..] == "" || forall i :: 0 <= i < k ==> Fold(str[i]) != Fold(rule[1]))
        && LazilyMatches(rule[1..], str[k..])
    else str != "" && Fold(rule[0]) == Fold(str[0]) && LazilyMatches(rule[1..], str[1..])
  }

  ghost predicate NoAdjacentStars(rule: string) {
    forall i :: 0 <= i < |rule| - 1 ==> !(rule[i] == '*' && rule[i + 1] == '*')
  }

  // For rules without adjacent stars exactly these expansions are accepted.
  lemma {:induction false} AcceptsLazily(rule: string, str: string)
    requires NoAdjacentStars(rule)
    ensures Accepts(rule, str) <==> LazilyMatches(rule, str)
    decreases |rule|
  {
    if rule == "" {
    } else if rule[0] != '*' {
      if str != "" { AcceptsLazily(rule[1..], str[1..]); }
    } else if rule[1..] == "" {
      assert LazilyMatches(rule[1..], str[|str|..]);
    } else {
      var c := Fold(rule[1]);
      var f := FirstOf(str, c);
      assert rule[1] != '*';
      AcceptsLazily(rule[1..], str[f..]);
      if LazilyMatches(rule, str) {
        var k :| 0 <= k <= |str| && (forall i :: 0 <= i < k ==> Fold(str[i]) != c) &&
                 LazilyMatches(rule[1..], str[k..]);
        assert Fold(str[k]) == c;
        assert k == f;
      }
    }
  }

  // The rules for which a second try is never needed: after literal characters, either nothing, or
  // a star that is followed by nothing, or by one character and another star of this kind.
  predicate NeedsNoRetry(rule: string)
    decreases |rule|
  {
    if rule == "" then true
    else if rule[0] != '*' then NeedsNoRetry(rule[1..])
    else rule[1..] == "" || (|rule| >= 3 && rule[1] != '*' && rule[2] == '*' && NeedsNoRetry(rule[2..]))
  }

  lemma StarReachesBack(rule: string, str: string, j: nat)
    requires rule != "" && rule[0] == '*' && j <= |str| && Matches(rule, str[j..])
    ensures Matches(rule, str)
  {
    var k :| 0 <= k <= |str[j..]| && Matches(rule[1..], str[j..][k..]);
    assert str[j..][k..] == str[j + k..];
  }

  lemma {:induction false} NoRetryComplete(rule: string, str: string)
    requires NeedsNoRetry(rule) && Matches(rule, str)
    ensures Accepts(rule, str)
    decreases |rule|
  {
    if rule == "" {
    } else if rule[0] != '*' {
      NoRetryComplete(rule[1..], str[1..]);
    } else if rule[1..] != "" {
      var k :| 0 <= k <= |str| && Matches(rule[1..], str[k..]);
      var f := FirstOf(str, Fold(rule[1]));
      assert rule[1..][1..] == rule[2..];
      assert str[k..][1..] == str[k + 1..];
      assert f <= k;
      assert str[f..][0] == str[f] && str[f..][1..] == str[f + 1..];
      assert str[f + 1..][k - f..] == str[k + 1..];
      StarReachesBack(rule[2..], str[f + 1..], k - f);
      NoRetryComplete(rule[2..], str[f + 1..]);
    }
  }

  // The shortest string of a rule: its literal characters.
  function Literals(rule: string): string {
    if rule == "" then "" else (if rule[0] == '*' then "" else [rule[0]]) + Literals(rule[1..])
  }

  lemma {:induction false} LiteralsMatch(rule: string)
    ensures Matches(rule, Literals(rule))
    ensures '*' !in Literals(rule)
    ensures NoNul(rule) ==> NoNul(Literals(rule))
  {
    if rule != "" {
      LiteralsMatch(rule[1..]);
      if rule[0] == '*' {
        assert Literals(rule)[0..] == Literals(rule[1..]);
      } else {
        assert Literals(rule)[1..] == Literals(rule[1..]);
      }
    }
  }

  // Some character that differs from c under case folding.
  function Other(c: char): (o: char)
    ensures Fold(o) != Fold(c) && o != '\0'
  {
    if Fold(c) == 'x' then 'y' else 'x'
  }

  // A string that the language of the rule contains and match_mask rejects.
  function Rejected(rule: string): string
    requires !NeedsNoRetry(rule)
    decreases |rule|
  {
    if rule[0] != '*' then [rule[0]] + Rejected(rule[1..])
    else if rule[1] == '*' then Literals(rule[1..])
    else if |rule| == 2 then [rule[1], rule[1]]
    else if rule[2] != '*' then [rule[1], Other(rule[2])] + Literals(rule[1..])
    else [rule[1]] + Rejected(rule[2..])
  }

  // A star takes nothing when the string starts with the character behind it.
  lemma StarTakesNothing(rule: string, w: string)
    requires |rule| >= 2 && rule[0] == '*' && rule[1] != '*' && w != "" && Fold(w[0]) == Fold(rule[1])
    ensures Accepts(rule, w) <==> Accepts(rule[2..], w[1..])
  {
    assert FirstOf(w, Fold(rule[1])) == 0 && w[0..] == w;
    assert rule[1..][0] == rule[1] && rule[1..][1..] == rule[2..];
  }

  lemma StarTakes(rule: string, w: string, k: nat)
    requires rule != "" && rule[0] == '*' && k <= |w| && Matches(rule[1..], w[k..])
    ensures Matches(rule, w)
  {
  }

  // "*c" rejects "cc".
  lemma RejectedTwin(rule: string)
    requires |rule| == 2 && rule[0] == '*' && rule[1] != '*'
    ensures Matches(rule, [rule[1], rule[1]]) && !Accepts(rule, [rule[1], rule[1]])
  {
    var w := [rule[1], rule[1]];
    StarTakesNothing(rule, w);
    assert w[1..] == rule[1..] == [rule[1]] && w[1..][1..] == "" == rule[2..];
    assert Matches(rule[1..], w[1..]);
    StarTakes(rule, w, 1);
  }

  // "*cd" rejects a string that starts with c and not d, whatever follows.
  lemma RejectedPair(rule: string)
    requires |rule| > 2 && rule[0] == '*' && rule[1] != '*' && rule[2] != '*'
    ensures var w := [rule[1], Other(rule[2])] + Literals(rule[1..]); Matches(rule, w) && !Accepts(rule, w)
  {
    var w := [rule[1], Other(rule[2])] + Literals(rule[1..]);
    StarTakesNothing(rule, w);
    LiteralsMatch(rule[1..]);
    assert w[2..] == Literals(rule[1..]);
    StarTakes(rule, w, 2);
  }

  lemma {:induction false} RejectedNoNul(rule: string)
    requires !NeedsNoRetry(rule) && NoNul(rule)
    ensures NoNul(Rejected(rule))
    decreases |rule|
  {
    LiteralsMatch(rule[1..]);
    if rule[0] != '*' {
      RejectedNoNul(rule[1..]);
    } else if rule[1] != '*' && |rule| > 2 && rule[2] == '*' {
      RejectedNoNul(rule[2..]);
    }
  }

  lemma {:induction false} RejectedWitness(rule: string)
    requires !NeedsNoRetry(rule)
    ensures Matches(rule, Rejected(rule)) && !Accepts(rule, Rejected(rule))
    decreases |rule|
  {
    var w := Rejected(rule);
    if rule[0] != '*' {
      RejectedWitness(rule[1..]);
      assert w[1..] == Rejected(rule[1..]);
    } else if rule[1] == '*' {
      LiteralsMatch(rule[1..]);
      assert w[0..] == w;
      StarTakes(rule, w, 0);
      assert FirstOf(w, '*') == |w|;
    } else if |rule| == 2 {
      RejectedTwin(rule);
    } else if rule[2] != '*' {
      RejectedPair(rule);
    } else {
      StarTakesNothing(rule, w);
      RejectedWitness(rule[2..]);
      assert w[1..] == Rejected(rule[2..]) && w[0..] == w;
      assert rule[1..][1..] == rule[2..];
      StarTakes(rule, w, 0);
    }
  }

  // match_mask decides the documented language of a rule, for every name, exactly if the rule
  // needs no second try.
  lemma MaskMeetsLanguage(rule: string)
    requires NoNul(rule)
    ensures NeedsNoRetry(rule) <==> (forall str | NoNul(str) :: Accepts(rule, str) <==> Matches(rule, str))
  {
    if NeedsNoRetry(rule) {
      forall str | NoNul(str) ensures Accepts(rule, str) <==> Matches(rule, str) {
        if Matches(rule, str) { NoRetryComplete(rule, str); }
        if Accepts(rule, str) { AcceptsSound(rule, str); }
      }
    } else {
      RejectedNoNul(rule);
      RejectedWitness(rule);
    }
  }

  // The show and hide settings of one element.
  datatype Setting = Unset | Hide | Show

  // The policy lists.
  datatype Policy = Policy(allowed: seq<string>, denied: seq<string>)

  ghost predicate AnyAccepts(rules: seq<string>, name: string) {
    exists i :: 0 <= i < |rules| && Accepts(rules[i], name)
  }

  method AnyMatches(rules: seq<string>, name: string) returns (r: bool)
    requires NoNul(name) && forall i :: 0 <= i < |rules| ==> NoNul(rules[i])
    ensures r == AnyAccepts(rules, name)
  {
    var i := 0;
    while i < |rules|
      invariant i <= |rules| && forall j :: 0 <= j < i ==> !Accepts(rules[j], name)
    {
      var m := MatchMask(rules[i], name);
      if m { return true; }
      i := i + 1;
    }
    return false;
  }

  // The rules are C strings.
  ghost predicate Readable(policy: Policy) {
    && (forall i :: 0 <= i < |policy.denied| ==> NoNul(policy.denied[i]))
    && (forall i :: 0 <= i < |policy.allowed| ==> NoNul(policy.allowed[i]))
  }

  // A hidden element is not wanted and a shown one is; of the others, those that no rule denies, and that
  // some rule allows if there are any.
  ghost predicate Permitted(name: string, setting: Setting, policy: Policy) {
    match setting
    case Hide => false
    case Show => true
    case Unset => !AnyAccepts(policy.denied, name) && (policy.allowed == [] || AnyAccepts(policy.allowed, name))
  }

  // The same in terms of the single rules, without a configuration of the element.
  lemma PolicyLaws(name: string, policy: Policy, rule: string)
    ensures !Permitted(name, Hide, policy) && Permitted(name, Show, policy)
    ensures Permitted(name, Unset, Policy([], []))
    ensures Accepts(rule, name) ==> !Permitted(name, Unset, policy.(denied := policy.denied + [rule]))
    ensures !Accepts(rule, name) ==>
      (Permitted(name, Unset, policy.(denied := policy.denied + [rule])) <==> Permitted(name, Unset, policy))
    ensures Permitted(name, Unset, Policy([rule], [])) <==> Accepts(rule, name)
    ensures policy.allowed != [] ==>
      (Permitted(name, Unset, policy.(allowed := policy.allowed + [rule])) <==>
       Permitted(name, Unset, policy) || (Accepts(rule, name) && Permitted(name, Unset, Policy([], policy.denied))))
  {
    OneMoreRule(policy.denied, rule, name);
    OneMoreRule(policy.allowed, rule, name);
    OneMoreRule([], rule, name);
    assert [] + [rule] == [rule];
  }

  lemma OneMoreRule(rules: seq<string>, rule: string, name: string)
    ensures AnyAccepts(rules + [rule], name) <==> AnyAccepts(rules, name) || Accepts(rule, name)
  {
    var all := rules + [rule];
    assert all[|rules|] == rule && forall i :: 0 <= i < |rules| ==> all[i] == rules[i];
    assert Accepts(rule, name) ==> Accepts(all[|rules|], name);
    assert forall i :: 0 <= i < |rules| && Accepts(rules[i], name) ==> Accepts(all[i], name);
  }

  // element_allowed
  method ElementAllowed(name: string, setting: Setting, policy: Policy) returns (r: bool)
    requires NoNul(name) && Readable(policy)
    ensures r <==> Permitted(name, setting, policy)
  {
    if setting == Hide { return false; }
    if setting == Show { return true; }
    var denied := AnyMatches(policy.denied, name);
    if denied { return false; }
    if policy.allowed != [] {
      r := AnyMatches(policy.allowed, name);
      return;
    }
    return true;
  }
}
