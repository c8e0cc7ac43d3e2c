/** Joining a list of strings with a separator (JavaScript's `Array.prototype.join`)
    and its inverse, splitting a string at every occurrence of one character. */
module Text {

  /** `parts.join(sep)`: the parts with `sep` between neighbours; `[]` gives `""`. */
  function Join(parts: seq<string>, sep: string): string
  {
    if |parts| == 0 then ""
    else if |parts| == 1 then parts[0]
    else parts[0] + sep + Join(parts[1..], sep)
  }

  /** Cuts `s` at every occurrence of `d`; there is at least one piece (`""` gives `[""]`)
      and no piece contains `d`. */
  function Split(s: string, d: char): (pieces: seq<string>)
    ensures |pieces| >= 1
    ensures forall i :: 0 <= i < |pieces| ==> d !in pieces[i]
    decreases |s|
  {
    if |s| == 0 then [""]
    else
      var rest := Split(s[1..], d);
      if s[0] == d then [""] + rest
      else [[s[0]] + rest[0]] + rest[1..]
  }

  /** There is one more piece than there are occurrences of `d`. */
  lemma {:induction false} SplitCount(s: string, d: char)
    ensures |Split(s, d)| == multiset(s)[d] + 1
    decreases |s|
  {
    if |s| > 0 {
      SplitCount(s[1..], d);
      assert s == [s[0]] + s[1..];
    }
  }

  lemma JoinCons(x: string, rest: seq<string>, sep: string)
    requires |rest| >= 1
    ensures Join([x] + rest, sep) == x + sep + Join(rest, sep)
  {
    assert ([x] + rest)[1..] == rest;
  }

  /** A separator-free string is a single piece. */
  lemma {:induction false} SplitFree(p: string, d: char)
    requires d !in p
    ensures Split(p, d) == [p]
    decreases |p|
  {
    if |p| > 0 {
      assert d !in p[1..];
      SplitFree(p[1..], d);
      assert [p[0]] + p[1..] == p;
    }
  }

  /** Splitting `p + d + rest` cuts exactly after `p` when `p` has no `d`. */
  lemma {:induction false} SplitAfterFirst(p: string, rest: string, d: char)
    requires d !in p
    ensures Split(p + [d] + rest, d) == [p] + Split(rest, d)
    decreases |p|
  {
    var s := p + [d] + rest;
    if |p| == 0 {
      assert s[1..] == rest;
    } else {
      assert s[1..] == p[1..] + [d] + rest;
      assert d !in p[1..];
      SplitAfterFirst(p[1..], rest, d);
      assert [p[0]] + p[1..] == p;
    }
  }

  /** Join then Split is the identity when no part contains the separator. */
  lemma {:induction false} SplitJoin(parts: seq<string>, d: char)
    requires |parts| >= 1
    requires forall i :: 0 <= i < |parts| ==> d !in parts[i]
    ensures Split(Join(parts, [d]), d) == parts
    decreases |parts|
  {
    if |parts| == 1 {
      SplitFree(parts[0], d);
    } else {
      SplitAfterFirst(parts[0], Join(parts[1..], [d]), d);
      SplitJoin(parts[1..], d);
      assert [parts[0]] + parts[1..] == parts;
    }
  }

  /** Split then Join is the identity for every string. */
  lemma {:induction false} JoinSplit(s: string, d: char)
    ensures Join(Split(s, d), [d]) == s
    decreases |s|
  {
    if |s| > 0 {
      JoinSplit(s[1..], d);
      JoinSplitStep(s, d);
    }
  }

  /** One step of `JoinSplit`: from the tail to the whole string. */
  lemma JoinSplitStep(s: string, d: char)
    requires |s| > 0
    requires Join(Split(s[1..], d), [d]) == s[1..]
    ensures Join(Split(s, d), [d]) == s
  {
    SplitUnfold(s, d);
    var rest := Split(s[1..], d);
    if s[0] == d {
      JoinCons("", rest, [d]);
    } else {
      JoinHead(s[0], rest, [d]);
    }
    assert [s[0]] + s[1..] == s;
  }

  lemma SplitUnfold(s: string, d: char)
    requires |s| > 0
    ensures Split(s, d) == if s[0] == d then [""] + Split(s[1..], d)
                           else [[s[0]] + Split(s[1..], d)[0]] + Split(s[1..], d)[1..]
  {
  }

  /** Gluing a character onto the first part glues it onto the join. */
  lemma JoinHead(c: char, parts: seq<string>, sep: string)
    requires |parts| >= 1
    ensures Join([[c] + parts[0]] + parts[1..], sep) == [c] + Join(parts, sep)
  {
    if |parts| > 1 {
      JoinCons([c] + parts[0], parts[1..], sep);
      JoinCons(parts[0], parts[1..], sep);
      assert [parts[0]] + parts[1..] == parts;
    }
  }

  /** A character absent from every part and from the separator is absent from the join. */
  lemma {:induction false} JoinAvoids(parts: seq<string>, sep: string, c: char)
    requires c !in sep
    requires forall i :: 0 <= i < |parts| ==> c !in parts[i]
    ensures c !in Join(parts, sep)
    decreases |parts|
  {
    if |parts| > 1 {
      JoinAvoids(parts[1..], sep, c);
    }
  }

  /** With no separator inside the parts, the join holds exactly `|parts| - 1` separators
      and splits back into `|parts|` fields. */
  lemma FieldCount(parts: seq<string>, d: char)
    requires |parts| >= 1
    requires forall i :: 0 <= i < |parts| ==> d !in parts[i]
    ensures multiset(Join(parts, [d]))[d] == |parts| - 1
    ensures |Split(Join(parts, [d]), d)| == |parts|
  {
    SplitJoin(parts, d);
    SplitCount(Join(parts, [d]), d);
  }
}
