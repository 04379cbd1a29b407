/**
 * The string operations the scraper relies on: Python's `str.strip()`,
 * BeautifulSoup's `get_text(strip=True)`, and `str.split('/')[-1]`.
 */
module Text {

  /** Python's `str.isspace()` for one character. */
  predicate IsSpace(c: char) {
    || c == ' '
    || '\t' <= c <= '\r'
    || '\U{1C}' <= c <= '\U{1F}'
    || c == '\U{85}'
    || c == '\U{A0}'
    || c == '\U{1680}'
    || '\U{2000}' <= c <= '\U{200A}'
    || c == '\U{2028}'
    || c == '\U{2029}'
    || c == '\U{202F}'
    || c == '\U{205F}'
    || c == '\U{3000}'
  }

  /** The number of whitespace characters `s` starts with. */
  function ContentStart(s: string): (i: nat)
    ensures i <= |s|
    ensures forall k :: 0 <= k < i ==> IsSpace(s[k])
    ensures i < |s| ==> !IsSpace(s[i])
  {
    if s != [] && IsSpace(s[0]) then 1 + ContentStart(s[1..]) else 0
  }

  /** The length of `s` without the whitespace it ends with. */
  function ContentEnd(s: string): (j: nat)
    ensures j <= |s|
    ensures forall k :: j <= k < |s| ==> IsSpace(s[k])
    ensures 0 < j ==> !IsSpace(s[j - 1])
  {
    if s != [] && IsSpace(s[|s| - 1]) then ContentEnd(s[..|s| - 1]) else |s|
  }

  /** Python's `s.strip()`: leading and trailing whitespace removed. */
  function Strip(s: string): string {
    var i, j := ContentStart(s), ContentEnd(s);
    if i < j then s[i..j] else []
  }

  /** The infix `s[i..j]` is what remains once whitespace is cut from both ends. */
  ghost predicate IsStrippedInfix(s: string, i: nat, j: nat) {
    && i <= j <= |s|
    && (forall k :: 0 <= k < i ==> IsSpace(s[k]))
    && (forall k :: j <= k < |s| ==> IsSpace(s[k]))
    && (i < j ==> !IsSpace(s[i]) && !IsSpace(s[j - 1]))
  }

  /** Strip returns such an infix. */
  lemma StripIsStrippedInfix(s: string)
    ensures var i := ContentStart(s);
      var j := if i < ContentEnd(s) then ContentEnd(s) else i;
      IsStrippedInfix(s, i, j) && Strip(s) == s[i..j]
  {
  }

  /** Conversely, any stripped infix of `s` is `Strip(s)`: whitespace is
      removed from both ends and nothing more. */
  lemma StripUnique(s: string, i: nat, j: nat)
    requires IsStrippedInfix(s, i, j)
    ensures Strip(s) == s[i..j]
  {
    StripIsStrippedInfix(s);
    var i' := ContentStart(s);
    var j' := if i' < ContentEnd(s) then ContentEnd(s) else i';
    assert (i < j) == (i' < j');
    if i < j {
      assert i == i';
      assert j == j';
    }
  }

  /** A stripped string neither starts nor ends with whitespace. */
  lemma StripTrimmed(s: string)
    ensures var r := Strip(s);
      r == [] || (!IsSpace(r[0]) && !IsSpace(r[|r| - 1]))
  {
    StripIsStrippedInfix(s);
  }

  /** Stripping twice changes nothing. */
  lemma StripIdempotent(s: string)
    ensures Strip(Strip(s)) == Strip(s)
  {
    var r := Strip(s);
    StripTrimmed(s);
    StripUnique(r, 0, |r|);
  }

  /**
   * BeautifulSoup's `get_text(strip=True)`: every text node of the element
   * is stripped, the ones left empty are dropped, and the rest are joined
   * with the empty separator.
   */
  function GetTextStripped(nodes: seq<string>): string {
    if nodes == [] then [] else Strip(nodes[0]) + GetTextStripped(nodes[1..])
  }

  /** The text of an element with a single text node is that node, stripped. */
  lemma GetTextStrippedSingle(t: string)
    ensures GetTextStripped([t]) == Strip(t)
  {
    assert [t][1..] == [];
  }

  /** The text of a node list is the text of its first part followed by the text of the rest:
      with `GetTextStrippedSingle` this fixes the result for any number of nodes. */
  lemma {:induction false} GetTextStrippedAppend(a: seq<string>, b: seq<string>)
    ensures GetTextStripped(a + b) == GetTextStripped(a) + GetTextStripped(b)
  {
    if a != [] {
      assert (a + b)[0] == a[0] && (a + b)[1..] == a[1..] + b;
      GetTextStrippedAppend(a[1..], b);
    } else {
      assert a + b == b;
    }
  }

  /** The extracted text never starts or ends with whitespace. */
  lemma {:induction false} GetTextStrippedTrimmed(nodes: seq<string>)
    ensures var r := GetTextStripped(nodes);
      r == [] || (!IsSpace(r[0]) && !IsSpace(r[|r| - 1]))
  {
    if nodes != [] {
      var h := Strip(nodes[0]);
      var t := GetTextStripped(nodes[1..]);
      GetTextStrippedTrimmed(nodes[1..]);
      StripTrimmed(nodes[0]);
      var r := h + t;
      assert r == GetTextStripped(nodes);
      if h != [] {
        assert r[0] == h[0];
      } else {
        assert r == t;
      }
      if t != [] {
        assert r[|r| - 1] == t[|t| - 1];
      } else {
        assert r == h;
      }
    }
  }

  /** So stripping the extracted text again leaves it as it is. */
  lemma GetTextStrippedIsStripped(nodes: seq<string>)
    ensures Strip(GetTextStripped(nodes)) == GetTextStripped(nodes)
  {
    var r := GetTextStripped(nodes);
    GetTextStrippedTrimmed(nodes);
    StripUnique(r, 0, |r|);
  }

  /** `s` with every whitespace character deleted. */
  function Squeeze(s: string): string {
    if s == [] then [] else (if IsSpace(s[0]) then [] else [s[0]]) + Squeeze(s[1..])
  }

  /** The text nodes of an element, concatenated as they stand. */
  function Concat(nodes: seq<string>): string {
    if nodes == [] then [] else nodes[0] + Concat(nodes[1..])
  }

  lemma {:induction false} SqueezeAppend(a: string, b: string)
    ensures Squeeze(a + b) == Squeeze(a) + Squeeze(b)
  {
    if a != [] {
      assert (a + b)[1..] == a[1..] + b;
      SqueezeAppend(a[1..], b);
    } else {
      assert a + b == b;
    }
  }

  lemma {:induction false} SqueezeAllSpace(s: string)
    requires forall k :: 0 <= k < |s| ==> IsSpace(s[k])
    ensures Squeeze(s) == []
  {
    if s != [] {
      SqueezeAllSpace(s[1..]);
    }
  }

  /** Stripping deletes whitespace only: every other character stays, in order. */
  lemma StripKeepsContent(s: string)
    ensures Squeeze(Strip(s)) == Squeeze(s)
  {
    StripIsStrippedInfix(s);
    var i := ContentStart(s);
    var j := if i < ContentEnd(s) then ContentEnd(s) else i;
    assert s == s[..i] + s[i..j] + s[j..];
    SqueezeAllSpace(s[..i]);
    SqueezeAllSpace(s[j..]);
    SqueezeAppend(s[..i] + s[i..j], s[j..]);
    SqueezeAppend(s[..i], s[i..j]);
  }

  /**
   * The extracted text deletes whitespace only: it keeps every non-space
   * character of the text nodes, in order. Whitespace between nodes goes
   * as well as whitespace at the ends.
   */
  lemma {:induction false} GetTextStrippedKeepsContent(nodes: seq<string>)
    ensures Squeeze(GetTextStripped(nodes)) == Squeeze(Concat(nodes))
  {
    if nodes != [] {
      GetTextStrippedKeepsContent(nodes[1..]);
      StripKeepsContent(nodes[0]);
      SqueezeAppend(Strip(nodes[0]), GetTextStripped(nodes[1..]));
      SqueezeAppend(nodes[0], Concat(nodes[1..]));
    }
  }

  /** Python's `s.split(d)`: the pieces between occurrences of `d`, empty pieces kept. */
  function Split(s: string, d: char): (parts: seq<string>)
    ensures |parts| >= 1
    ensures forall k :: 0 <= k < |parts| ==> d !in parts[k]
  {
    if s == [] then [[]]
    else
      var rest := Split(s[1..], d);
      if s[0] == d then [[]] + rest else [[s[0]] + rest[0]] + rest[1..]
  }

  /** Python's `d.join(parts)`. */
  function Join(parts: seq<string>, d: char): string
    requires |parts| >= 1
  {
    if |parts| == 1 then parts[0] else parts[0] + [d] + Join(parts[1..], d)
  }

  /** Joining the pieces of a split with the same separator gives back the string. */
  lemma {:induction false} JoinSplit(s: string, d: char)
    ensures Join(Split(s, d), d) == s
  {
    if s != [] {
      var rest := Split(s[1..], d);
      JoinSplit(s[1..], d);
      if s[0] == d {
        assert ([[]] + rest)[1..] == rest;
      } else {
        var parts := [[s[0]] + rest[0]] + rest[1..];
        assert parts[1..] == rest[1..];
        if |rest| > 1 {
          assert Join(rest, d) == rest[0] + [d] + Join(rest[1..], d);
        }
      }
    }
  }

  /** Splitting joined pieces that do not contain the separator gives back the pieces. */
  lemma {:induction false} SplitJoin(parts: seq<string>, d: char)
    requires |parts| >= 1
    requires forall k :: 0 <= k < |parts| ==> d !in parts[k]
    ensures Split(Join(parts, d), d) == parts
  {
    if |parts| == 1 {
      SplitNoSeparator(parts[0], d);
    } else {
      SplitJoin(parts[1..], d);
      SplitPrefix(parts[0], Join(parts[1..], d), d);
      assert [parts[0]] + parts[1..] == parts;
    }
  }

  lemma {:induction false} SplitNoSeparator(s: string, d: char)
    requires d !in s
    ensures Split(s, d) == [s]
  {
    if s != [] {
      SplitNoSeparator(s[1..], d);
      assert [s[0]] + s[1..] == s;
    }
  }

  lemma {:induction false} SplitPrefix(p: string, t: string, d: char)
    requires d !in p
    ensures Split(p + [d] + t, d) == [p] + Split(t, d)
  {
    var s := p + [d] + t;
    if p == [] {
      assert s[1..] == t;
    } else {
      assert s[1..] == p[1..] + [d] + t;
      SplitPrefix(p[1..], t, d);
      assert [p[0]] + p[1..] == p;
    }
  }

  /** Python's `s.split('/')[-1]`: the piece after the final `/`. */
  function LastSegment(s: string): string {
    var parts := Split(s, '/');
    parts[|parts| - 1]
  }

  /**
   * The last segment holds no `/`, ends the string, and is either the whole
   * string (when it has no `/`) or comes right after its final `/`.
   */
  lemma LastSegmentSpec(s: string)
    ensures var r := LastSegment(s);
      && '/' !in r
      && |r| <= |s| && r == s[|s| - |r|..]
      && ('/' !in s ==> r == s)
      && ('/' in s ==> |r| < |s| && s[|s| - |r| - 1] == '/')
  {
    var parts := Split(s, '/');
    JoinSplit(s, '/');
    JoinEndsWithLast(parts, '/');
    if |parts| > 1 {
      var r := parts[|parts| - 1];
      assert s[|s| - |r| - 1] == '/';
    }
  }

  /** A join ends with its last piece, right after a separator when there are several pieces. */
  lemma {:induction false} JoinEndsWithLast(parts: seq<string>, d: char)
    requires |parts| >= 1
    ensures var j, r := Join(parts, d), parts[|parts| - 1];
      && |r| <= |j| && j[|j| - |r|..] == r
      && (|parts| == 1 ==> j == r)
      && (|parts| > 1 ==> |r| < |j| && j[|j| - |r| - 1] == d)
  {
    if |parts| > 1 {
      var rest := parts[1..];
      JoinEndsWithLast(rest, d);
      var j, jr := Join(parts, d), Join(rest, d);
      var r := parts[|parts| - 1];
      assert r == rest[|rest| - 1];
      assert j == parts[0] + [d] + jr;
      assert j[|j| - |r|..] == jr[|jr| - |r|..];
      if |rest| == 1 {
        assert j[|j| - |r| - 1] == d;
      } else {
        assert j[|j| - |r| - 1] == jr[|jr| - |r| - 1];
      }
    }
  }
}
