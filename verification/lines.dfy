/**
 * Python's `"\n".join(parts)` and its inverse, `text.split("\n")`.
 */
module Lines {

  const Newline: char := '\n'

  /** True when no part contains a line break. */
  predicate SingleLines(parts: seq<string>)
  {
    forall k :: 0 <= k < |parts| ==> Newline !in parts[k]
  }

  /** Index of the first `c` in `s`; `s` must contain one. */
  function FirstIndex(s: string, c: char): (i: nat)
    requires c in s
    ensures i < |s| && s[i] == c
    ensures c !in s[..i]
  {
    if s[0] == c then 0
    else
      assert c in s[1..] by {
        var k :| 0 <= k < |s| && s[k] == c;
        assert s[1..][k - 1] == c;
      }
      1 + FirstIndex(s[1..], c)
  }

  /** The number of characters in all the parts together. */
  function TotalLength(parts: seq<string>): nat
  {
    if |parts| == 0 then 0 else |parts[0]| + TotalLength(parts[1..])
  }

  /**
   * `"\n".join(parts)`: the parts in order, with one line break between neighbours,
   * so the text is as long as the parts plus one character per neighbouring pair.
   */
  function Join(parts: seq<string>): (r: string)
    ensures |parts| == 0 ==> r == ""
    ensures |parts| > 0 ==> |r| == TotalLength(parts) + |parts| - 1
  {
    if |parts| == 0 then ""
    else if |parts| == 1 then parts[0]
    else parts[0] + [Newline] + Join(parts[1..])
  }

  /** `text.split("\n")`: the pieces between line breaks; the empty text gives one empty piece. */
  function Split(text: string): (r: seq<string>)
    ensures |r| >= 1
    ensures SingleLines(r)
    decreases |text|
  {
    if Newline !in text then [text]
    else
      var i := FirstIndex(text, Newline);
      [text[..i]] + Split(text[i + 1..])
  }

  /** Joining a part in front of a non-empty list puts one line break between them. */
  lemma JoinCons(part: string, parts: seq<string>)
    requires |parts| > 0
    ensures Join([part] + parts) == part + [Newline] + Join(parts)
  {
  }

  /** Splitting a line-free line followed by a line break peels off exactly that line. */
  lemma SplitAfterLine(line: string, rest: string)
    requires Newline !in line
    ensures Split(line + [Newline] + rest) == [line] + Split(rest)
  {
    var text := line + [Newline] + rest;
    assert text[|line|] == Newline;
    var i := FirstIndex(text, Newline);
    assert i == |line|;
    assert text[..i] == line;
    assert text[i + 1..] == rest;
  }

  /** Splitting the joined text recovers every part, in order, when no part holds a line break. */
  lemma {:induction false} SplitJoin(parts: seq<string>)
    requires |parts| > 0
    requires SingleLines(parts)
    ensures Split(Join(parts)) == parts
  {
    if |parts| == 1 {
      assert Newline !in parts[0];
    } else {
      var tail := parts[1..];
      assert parts == [parts[0]] + tail;
      JoinCons(parts[0], tail);
      SplitAfterLine(parts[0], Join(tail));
      SplitJoin(tail);
    }
  }

  /** Joining the pieces of a split gives back the original text. */
  lemma {:induction false} JoinSplit(text: string)
    ensures Join(Split(text)) == text
    decreases |text|
  {
    if Newline in text {
      var i := FirstIndex(text, Newline);
      var line, rest := text[..i], text[i + 1..];
      var pieces := Split(rest);
      assert Split(text) == [line] + pieces;
      JoinSplit(rest);
      JoinCons(line, pieces);
      assert text == line + [Newline] + rest;
    }
  }

  /** On line-free parts, distinct part lists never join to the same text. */
  lemma JoinInjective(parts1: seq<string>, parts2: seq<string>)
    requires |parts1| > 0 && |parts2| > 0
    requires SingleLines(parts1) && SingleLines(parts2)
    requires Join(parts1) == Join(parts2)
    ensures parts1 == parts2
  {
    SplitJoin(parts1);
    SplitJoin(parts2);
  }

  /** Where part `k` starts in the joined text: after each earlier part and its line break. */
  function Offset(parts: seq<string>, k: nat): nat
    requires k <= |parts|
  {
    if k == 0 then 0 else |parts[0]| + 1 + Offset(parts[1..], k - 1)
  }

  /**
   * The contents of the join for any parts, line breaks inside them included: part `k`
   * sits at `Offset(parts, k)`, and a line break comes just before every part but the
   * first. With `Join`'s length, this accounts for every character of the text.
   */
  lemma {:induction false} JoinPlacesParts(parts: seq<string>, k: nat)
    requires k < |parts|
    ensures Offset(parts, k) + |parts[k]| <= |Join(parts)|
    ensures Join(parts)[Offset(parts, k)..Offset(parts, k) + |parts[k]|] == parts[k]
    ensures k > 0 ==> Join(parts)[Offset(parts, k) - 1] == Newline
  {
    if |parts| == 1 {
      assert k == 0;
    } else {
      var head := parts[0] + [Newline];
      var rest := Join(parts[1..]);
      assert Join(parts) == head + rest;
      if k == 0 {
        assert (head + rest)[..|parts[0]|] == parts[0];
      } else {
        JoinPlacesParts(parts[1..], k - 1);
        var o := Offset(parts[1..], k - 1);
        assert parts[1..][k - 1] == parts[k];
        assert (head + rest)[|head| + o..|head| + o + |parts[k]|] == rest[o..o + |parts[k]|];
        if k == 1 {
          assert (head + rest)[|parts[0]|] == Newline;
        } else {
          assert (head + rest)[|head| + o - 1] == rest[o - 1];
        }
      }
    }
  }
}
