/** The string operations of the standard library used on TOC lines. */
module Texts {
  import opened Wrappers

  predicate IsSpace(c: char) {
    || c == ' ' || '\U{0009}' <= c <= '\U{000d}' || c == '\U{0085}' || c == '\U{00a0}' || c == '\U{1680}'
    || '\U{2000}' <= c <= '\U{200a}' || c == '\U{2028}' || c == '\U{2029}'
    || c == '\U{202f}' || c == '\U{205f}' || c == '\U{3000}'
  }

  function TrimStart(s: string): string {
    if s != [] && IsSpace(s[0]) then TrimStart(s[1..]) else s
  }

  function TrimEnd(s: string): string {
    if s != [] && IsSpace(s[|s| - 1]) then TrimEnd(s[..|s| - 1]) else s
  }

  function Trim(s: string): string {
    TrimEnd(TrimStart(s))
  }

  predicate AllSpace(s: string) {
    forall i :: 0 <= i < |s| ==> IsSpace(s[i])
  }

  predicate NoSpaceAround(s: string) {
    s != [] ==> !IsSpace(s[0]) && !IsSpace(s[|s| - 1])
  }

  lemma SpaceBefore(a: string, c: char)
    requires AllSpace(a) && IsSpace(c)
    ensures AllSpace([c] + a) && AllSpace(a + [c])
  {
    hide IsSpace;
  }

  lemma {:induction false} TrimStartSpec(s: string) returns (before: string)
    ensures s == before + TrimStart(s) && AllSpace(before)
    ensures TrimStart(s) != [] ==> !IsSpace(TrimStart(s)[0])
    decreases |s|
  {
    hide IsSpace;
    before := [];
    if s != [] && IsSpace(s[0]) {
      var rest := TrimStartSpec(s[1..]);
      SpaceBefore(rest, s[0]);
      before := [s[0]] + rest;
      assert s == [s[0]] + s[1..];
    }
  }

  lemma {:induction false} TrimEndSpec(s: string) returns (after: string)
    ensures s == TrimEnd(s) + after && AllSpace(after)
    ensures TrimEnd(s) != [] ==> !IsSpace(TrimEnd(s)[|TrimEnd(s)| - 1])
    decreases |s|
  {
    hide IsSpace;
    after := [];
    if s != [] && IsSpace(s[|s| - 1]) {
      var n := |s| - 1;
      var rest := TrimEndSpec(s[..n]);
      SpaceBefore(rest, s[n]);
      after := rest + [s[n]];
      assert s == s[..n] + [s[n]];
    }
  }

  /** Trimming takes the white space around a text, all of it and nothing else. */
  lemma TrimSpec(s: string) returns (before: string, after: string)
    ensures s == before + Trim(s) + after && AllSpace(before) && AllSpace(after) && NoSpaceAround(Trim(s))
  {
    hide IsSpace, TrimStart, TrimEnd, AllSpace;
    before := TrimStartSpec(s);
    after := TrimEndSpec(TrimStart(s));
    assert Trim(s) != [] ==> Trim(s)[0] == TrimStart(s)[0];
  }

  /** The first place of `c` from `from` on. */
  function Find(s: string, c: char, from: nat): (r: Option<nat>)
    ensures r.Some? ==> from <= r.value < |s| && s[r.value] == c
    decreases |s| - from
  {
    if from >= |s| then None else if s[from] == c then Some(from) else Find(s, c, from + 1)
  }

  lemma {:induction false} FindIs(s: string, c: char, from: nat, at: nat)
    requires from <= at < |s| && s[at] == c && forall i :: from <= i < at ==> s[i] != c
    ensures Find(s, c, from) == Some(at)
    decreases at - from
  {
    if from < at {
      FindIs(s, c, from + 1, at);
    }
  }

  lemma {:induction false} FindNothing(s: string, c: char, from: nat)
    requires from <= |s| && forall i :: from <= i < |s| ==> s[i] != c
    ensures Find(s, c, from) == None
    decreases |s| - from
  {
    if from < |s| {
      FindNothing(s, c, from + 1);
    }
  }

  /** Splits `s` at the separators and reads every field; `field` is the part of the first one that has
      been seen. */
  function ReadFields<T>(separator: char -> bool, read: string -> seq<T>, field: string, s: string): seq<T>
    decreases |s|
  {
    if s == [] then read(field)
    else if separator(s[0]) then read(field) + ReadFields(separator, read, [], s[1..])
    else ReadFields(separator, read, field + [s[0]], s[1..])
  }

  lemma {:induction false} ReadFieldsOfJoined<T>(separator: char -> bool, read: string -> seq<T>, field: string,
        a: string, c: char, b: string)
    requires separator(c)
    ensures ReadFields(separator, read, field, a + [c] + b) ==
            ReadFields(separator, read, field, a) + ReadFields(separator, read, [], b)
    decreases |a|
  {
    var s := a + [c] + b;
    if a == [] {
      assert s[1..] == b;
    } else {
      assert s[1..] == a[1..] + [c] + b;
      if separator(a[0]) {
        ReadFieldsOfJoined(separator, read, [], a[1..], c, b);
      } else {
        ReadFieldsOfJoined(separator, read, field + [a[0]], a[1..], c, b);
      }
    }
  }

  function Lower(c: char): char {
    if 'A' <= c <= 'Z' then c - 'A' + 'a' else c
  }

  function LowerCase(s: string): (r: string)
    ensures |r| == |s| && forall i :: 0 <= i < |s| ==> r[i] == Lower(s[i])
  {
    seq(|s|, i requires 0 <= i < |s| => Lower(s[i]))
  }
}
