// C strings inside character buffers.
module CStrings {
  import opened Options

  // The place of the first c, or |s|.
  function Place(s: string, c: char): (k: nat)
    ensures k <= |s|
    ensures k < |s| ==> s[k] == c
    ensures forall i :: 0 <= i < k ==> s[i] != c
  {
    if s == "" || s[0] == c then 0 else 1 + Place(s[1..], c)
  }

  lemma {:induction false} PlaceIs(s: string, c: char, k: nat)
    requires k <= |s| && (k < |s| ==> s[k] == c) && c !in s[..k]
    ensures Place(s, c) == k
  {
    if k > 0 {
      assert s[..k][0] == s[0] && s[1..][..k - 1] == s[..k][1..];
      PlaceIs(s[1..], c, k - 1);
    }
  }

  // The string text stands at place i of the buffer, with its terminator behind it.
  ghost predicate Shows(b: seq<char>, i: nat, text: string) {
    i + |text| < |b| && b[i..i + |text|] == text && b[i + |text|] == '\0' && '\0' !in text
  }

  // The C string that starts at i.
  function CString(b: seq<char>, i: nat): string
    decreases |b| - i
  {
    if i >= |b| || b[i] == '\0' then "" else [b[i]] + CString(b, i + 1)
  }

  lemma {:induction false} ShowsReads(b: seq<char>, i: nat, text: string)
    requires Shows(b, i, text)
    ensures CString(b, i) == text
    decreases |text|
  {
    if text != "" {
      assert b[i] == text[0];
      assert b[i + 1..i + 1 + |text[1..]|] == text[1..];
      ShowsReads(b, i + 1, text[1..]);
    }
  }

  // The end of a string is a string.
  lemma ShowsTail(b: seq<char>, i: nat, text: string, k: nat)
    requires Shows(b, i, text) && k <= |text|
    ensures Shows(b, i + k, text[k..])
  {
    assert b[i + k..i + |text|] == b[i..i + |text|][k..];
  }

  // A terminator written into a string cuts it in two.
  lemma ShowsCut(b: seq<char>, i: nat, text: string, k: nat)
    requires Shows(b, i, text) && k < |text|
    ensures Shows(b[i + k := '\0'], i, text[..k])
    ensures Shows(b[i + k := '\0'], i + k + 1, text[k + 1..])
  {
    var c := b[i + k := '\0'];
    assert c[i..i + k] == b[i..i + |text|][..k];
    assert c[i + k + 1..i + |text|] == b[i..i + |text|][k + 1..];
  }

  // A character of the string, or its terminator.
  lemma ShowsAt(b: seq<char>, i: nat, text: string, k: nat)
    requires Shows(b, i, text) && k <= |text|
    ensures b[i + k] == if k < |text| then text[k] else '\0'
    ensures k < |text| ==> b[i + k] != '\0'
  {
    if k < |text| { assert b[i..i + |text|][k] == text[k]; }
  }

  lemma PlaceFound(text: string, c: char, k: nat)
    requires k <= |text| && (k < |text| ==> text[k] == c) && forall j :: 0 <= j < k ==> text[j] != c
    ensures Place(text, c) == k && (c in text <==> k < |text|)
  {
    PlaceIs(text, c, k);
  }

  // strchr
  method StrChr(buf: array<char>, from: nat, c: char, ghost text: string) returns (r: Option<nat>)
    requires Shows(buf[..], from, text) && c != '\0'
    ensures r == if c !in text then None else Some(from + Place(text, c))
  {
    ghost var b := buf[..];
    var e := from;
    ShowsAt(b, from, text, 0);
    while buf[e] != '\0' && buf[e] != c
      invariant from <= e <= from + |text| < buf.Length
      invariant buf[e] == if e < from + |text| then text[e - from] else '\0'
      invariant buf[e] == '\0' ==> e == from + |text|
      invariant forall j :: 0 <= j < e - from ==> text[j] != c
      decreases from + |text| - e
    {
      e := e + 1;
      ShowsAt(b, from, text, e - from);
    }
    PlaceFound(text, c, e - from);
    r := if buf[e] == '\0' then None else Some(e);
  }
}
