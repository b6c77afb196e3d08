/** The string operations the crawler uses from Python's `str`: `find`, `split`,
    `join` and `lstrip`, each with a single-character argument. */
module Text {

  /** `s.find(c)`, except that a missing character gives `|s|` instead of -1. */
  function IndexOf(s: string, c: char): (r: nat)
    ensures r <= |s|
    ensures forall i :: 0 <= i < r ==> s[i] != c
    ensures r < |s| ==> s[r] == c
  {
    if s == [] then 0
    else if s[0] == c then 0
    else 1 + IndexOf(s[1..], c)
  }

  /** The text before the first `c`, or all of `s` when there is none. */
  function CutAt(s: string, c: char): (r: string)
    ensures c !in r
    ensures r <= s
    ensures c !in s ==> r == s
  {
    s[..IndexOf(s, c)]
  }

  /** `s.split(sep)`: the pieces between separators; never empty, and `""` splits to `[""]`. */
  function Split(s: string, sep: char): (r: seq<string>)
    ensures |r| >= 1
    ensures forall i :: 0 <= i < |r| ==> sep !in r[i]
  {
    if s == [] then [""]
    else if s[0] == sep then [""] + Split(s[1..], sep)
    else
      var rest := Split(s[1..], sep);
      [[s[0]] + rest[0]] + rest[1..]
  }

  /** `sep.join(parts)`. */
  function Join(parts: seq<string>, sep: char): (r: string)
    ensures parts != [] ==> parts[0] <= r
    ensures |parts| == 1 ==> r == parts[0]
  {
    if parts == [] then ""
    else if |parts| == 1 then parts[0]
    else parts[0] + [sep] + Join(parts[1..], sep)
  }

  /** `s.lstrip(c)`: drops every leading `c`. */
  function LStrip(s: string, c: char): (r: string)
    ensures |r| <= |s| && r == s[|s| - |r|..]
    ensures forall i :: 0 <= i < |s| - |r| ==> s[i] == c
    ensures r == [] || r[0] != c
  {
    if s != [] && s[0] == c then LStrip(s[1..], c) else s
  }

  lemma {:induction false} SplitNoSep(s: string, sep: char)
    requires sep !in s
    ensures Split(s, sep) == [s]
  {
    if s != [] {
      SplitNoSep(s[1..], sep);
      assert [s[0]] + s[1..] == s;
    }
  }

  /** Splitting distributes over a separator. */
  lemma {:induction false} SplitAppend(a: string, b: string, sep: char)
    ensures Split(a + [sep] + b, sep) == Split(a, sep) + Split(b, sep)
  {
    var s := a + [sep] + b;
    if a == [] {
      assert s[0] == sep && s[1..] == b;
    } else {
      assert s[0] == a[0] && s[1..] == a[1..] + [sep] + b;
      SplitAppend(a[1..], b, sep);
      var rest := Split(s[1..], sep);
      var ra := Split(a[1..], sep);
      assert rest == ra + Split(b, sep);
      if a[0] != sep {
        assert Split(s, sep) == [[a[0]] + rest[0]] + rest[1..];
        assert rest[0] == ra[0] && rest[1..] == ra[1..] + Split(b, sep);
        assert Split(a, sep) == [[a[0]] + ra[0]] + ra[1..];
      }
    }
  }

  /** Joining the pieces of a split gives back the text. */
  lemma {:induction false} SplitJoin(s: string, sep: char)
    ensures Join(Split(s, sep), sep) == s
  {
    if s != [] {
      SplitJoin(s[1..], sep);
      var rest := Split(s[1..], sep);
      if s[0] == sep {
        assert Split(s, sep) == [""] + rest;
        assert ([""] + rest)[1..] == rest;
      } else {
        var parts := Split(s, sep);
        assert parts == [[s[0]] + rest[0]] + rest[1..];
        if |rest| == 1 {
          assert [s[0]] + s[1..] == s;
        } else {
          assert parts[1..] == rest[1..];
          assert Join(rest, sep) == rest[0] + [sep] + Join(rest[1..], sep);
          assert [s[0]] + s[1..] == s;
        }
      }
    }
  }

  /** Splitting a join of separator-free pieces gives back the pieces. */
  lemma {:induction false} JoinSplit(parts: seq<string>, sep: char)
    requires parts != []
    requires forall i :: 0 <= i < |parts| ==> sep !in parts[i]
    ensures Split(Join(parts, sep), sep) == parts
  {
    SplitNoSep(parts[0], sep);
    if |parts| > 1 {
      JoinSplit(parts[1..], sep);
      SplitAppend(parts[0], Join(parts[1..], sep), sep);
      assert [parts[0]] + parts[1..] == parts;
    }
  }

  /** A character that is neither the separator nor in any piece is not in the join. */
  lemma {:induction false} JoinAvoids(parts: seq<string>, sep: char, x: char)
    requires x != sep
    requires forall i :: 0 <= i < |parts| ==> x !in parts[i]
    ensures x !in Join(parts, sep)
  {
    if |parts| > 1 {
      JoinAvoids(parts[1..], sep, x);
    }
  }

  /** Searching past a prefix that lacks the character. */
  lemma {:induction false} IndexOfAppend(a: string, b: string, c: char)
    requires c !in a
    ensures IndexOf(a + b, c) == |a| + IndexOf(b, c)
  {
    if a != [] {
      assert (a + b)[0] == a[0] && (a + b)[1..] == a[1..] + b;
      IndexOfAppend(a[1..], b, c);
    } else {
      assert a + b == b;
    }
  }
}
