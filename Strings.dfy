/** `String.split` with a one-character separator and a positive limit, and
    its inverse `Join`. */
module Strings {

  /** The index of the first occurrence of `c` in `s`. */
  function IndexOf(s: string, c: char): (i: nat)
    requires c in s
    ensures i < |s| && s[i] == c
    ensures c !in s[..i]
  {
    if s[0] == c then 0
    else
      assert s == [s[0]] + s[1..];
      var j := IndexOf(s[1..], c);
      assert s[..j + 1] == [s[0]] + s[1..][..j];
      j + 1
  }

  /** The parts glued back together with `sep` between neighbours. */
  function Join(parts: seq<string>, sep: char): (s: string)
  {
    if |parts| == 0 then ""
    else if |parts| == 1 then parts[0]
    else parts[0] + [sep] + Join(parts[1..], sep)
  }

  /** `s.split(sep, limit)` for a positive limit: the separator is applied at
      most `limit - 1` times, left to right, and the last part keeps the rest
      of the text, empty parts included. The parts, joined again, are `s`;
      every part but the last is free of `sep`, and so is the last one when
      fewer than `limit` parts came out. */
  function Split(s: string, sep: char, limit: nat): (parts: seq<string>)
    requires limit >= 1
    ensures 1 <= |parts| <= limit
    ensures Join(parts, sep) == s
    ensures forall k :: 0 <= k < |parts| - 1 ==> sep !in parts[k]
    ensures |parts| < limit ==> sep !in parts[|parts| - 1]
    decreases limit
  {
    if limit == 1 || sep !in s then [s]
    else
      var i := IndexOf(s, sep);
      var rest := Split(s[i + 1..], sep, limit - 1);
      assert s == s[..i] + [sep] + s[i + 1..];
      ConsPart(s[..i], rest, sep);
      [s[..i]] + rest
  }

  /** A separator-free part in front of parts that are free of it but
      for the last gives parts free of it but for the last, joined with one
      more separator. */
  lemma ConsPart(x: string, rest: seq<string>, sep: char)
    requires |rest| >= 1 && sep !in x
    requires forall k :: 0 <= k < |rest| - 1 ==> sep !in rest[k]
    ensures forall k :: 0 <= k < |rest| ==> sep !in ([x] + rest)[k]
    ensures Join([x] + rest, sep) == x + [sep] + Join(rest, sep)
  {
    var parts := [x] + rest;
    assert parts[1..] == rest;
    forall k | 0 <= k < |rest|
      ensures sep !in parts[k]
    {
      if k > 0 {
        assert parts[k] == rest[k - 1];
      }
    }
  }

  /** The separator occurs in the joined text once between each pair of
      neighbours, plus however often the parts hold it. */
  lemma {:induction false} JoinCount(parts: seq<string>, sep: char)
    ensures multiset(Join(parts, sep))[sep] >= |parts| - 1
    ensures |parts| >= 1 && (forall k :: 0 <= k < |parts| ==> sep !in parts[k]) ==>
              multiset(Join(parts, sep))[sep] == |parts| - 1
  {
    if |parts| > 1 {
      JoinCount(parts[1..], sep);
      assert forall k :: 0 <= k < |parts| - 1 ==> parts[1..][k] == parts[k + 1];
      var text := parts[0] + [sep] + Join(parts[1..], sep);
      assert multiset(text) == multiset(parts[0]) + multiset{sep} + multiset(Join(parts[1..], sep));
    } else if |parts| == 1 {
      assert Join(parts, sep) == parts[0];
      if sep !in parts[0] {
        assert multiset(parts[0])[sep] == 0;
      }
    }
  }

  /** Three fields joined by two separators hold the fields' separators
      and two more. */
  lemma CountFields(parts: seq<string>, sep: char)
    requires |parts| == 3
    ensures Join(parts, sep) == parts[0] + [sep] + parts[1] + [sep] + parts[2]
    ensures multiset(Join(parts, sep))[sep] ==
            multiset(parts[0])[sep] + multiset(parts[1])[sep] + multiset(parts[2])[sep] + 2
  {
    var a, b, c := parts[0], parts[1], parts[2];
    assert parts[1..][1..] == [c];
    assert Join(parts[1..], sep) == b + [sep] + c;
    assert multiset(a + [sep] + b + [sep] + c) ==
           multiset(a) + multiset{sep} + multiset(b) + multiset{sep} + multiset(c);
  }

  /** The limit-3 split yields three parts exactly when the text holds at
      least two separators. */
  lemma SplitThreeIff(s: string, sep: char)
    ensures |Split(s, sep, 3)| == 3 <==> multiset(s)[sep] >= 2
  {
    var parts := Split(s, sep, 3);
    JoinCount(parts, sep);
    if |parts| < 3 {
      assert forall k :: 0 <= k < |parts| ==> sep !in parts[k];
    }
  }

  /** The first separator of `a + [sep] + rest` is the one after `a`. */
  lemma IndexOfAfterField(a: string, rest: string, sep: char)
    requires sep !in a
    ensures IndexOf(a + [sep] + rest, sep) == |a|
  {
    var s := a + [sep] + rest;
    var i := IndexOf(s, sep);
    assert s[|a|] == sep;
    assert forall k :: 0 <= k < |a| ==> s[k] == a[k];
  }

  /** When the text holds three separators or more, the limit-3 split
      leaves at least one in the last part. */
  lemma SplitKeepsRest(s: string, sep: char)
    requires multiset(s)[sep] >= 3
    ensures var parts := Split(s, sep, 3);
            |parts| == 3 && sep in parts[2]
  {
    var parts := Split(s, sep, 3);
    SplitThreeIff(s, sep);
    CountFields(parts, sep);
    assert multiset(parts[0])[sep] == 0 && multiset(parts[1])[sep] == 0;
    assert multiset(parts[2])[sep] >= 1;
  }

  /** A text made of two separator-free fields, two separators and a tail
      splits back into exactly those three fields, whatever the tail holds. */
  lemma SplitFields(a: string, b: string, c: string, sep: char)
    requires sep !in a && sep !in b
    ensures Split(a + [sep] + b + [sep] + c, sep, 3) == [a, b, c]
  {
    var s := a + [sep] + b + [sep] + c;
    assert s == a + [sep] + (b + [sep] + c);
    IndexOfAfterField(a, b + [sep] + c, sep);
    assert s[..|a|] == a;
    var t := s[|a| + 1..];
    assert t == b + [sep] + c;
    IndexOfAfterField(b, c, sep);
    assert t[..|b|] == b;
    assert t[|b| + 1..] == c;
  }
}
