/** The JavaScript string operations the pipeline relies on:
    `trim`, `split` on a one-character separator, `toLowerCase` and
    `includes`. Strings are sequences of Unicode scalar values. */
module Text {

  /** White space and line terminators as ECMAScript's `String.prototype.trim`
      strips them: tab, line tabulation, form feed, space, no-break space,
      zero-width no-break space, the space separators of category Zs, and
      the four line terminators. */
  predicate IsSpace(c: char)
  {
    c == '\t' || c == '\n' || c == '\U{0B}' || c == '\U{0C}' || c == '\r' ||
    c == ' ' || c == '\U{A0}' || c == '\U{1680}' ||
    ('\U{2000}' <= c <= '\U{200A}') ||
    c == '\U{2028}' || c == '\U{2029}' || c == '\U{202F}' || c == '\U{205F}' ||
    c == '\U{3000}' || c == '\U{FEFF}'
  }

  /** Drops the leading spaces. */
  function TrimStart(s: string): string
    decreases |s|
  {
    if s != [] && IsSpace(s[0]) then TrimStart(s[1..]) else s
  }

  /** Drops the trailing spaces. */
  function TrimEnd(s: string): string
    decreases |s|
  {
    if s != [] && IsSpace(s[|s| - 1]) then TrimEnd(s[..|s| - 1]) else s
  }

  /** `s.trim()`. */
  function Trim(s: string): (r: string)
    ensures |r| <= |s|
    ensures r == [] || (!IsSpace(r[0]) && !IsSpace(r[|r| - 1]))
  {
    TrimStartShape(s);
    TrimEndShape(TrimStart(s));
    TrimEnd(TrimStart(s))
  }

  /** TrimStart drops the longest all-space prefix and nothing else. */
  lemma {:induction false} TrimStartShape(s: string)
    ensures |TrimStart(s)| <= |s| && TrimStart(s) == s[|s| - |TrimStart(s)|..]
    ensures forall i :: 0 <= i < |s| - |TrimStart(s)| ==> IsSpace(s[i])
    ensures TrimStart(s) == [] || !IsSpace(TrimStart(s)[0])
    decreases |s|
  {
    if s != [] && IsSpace(s[0]) {
      TrimStartShape(s[1..]);
    }
  }

  /** TrimEnd drops the longest all-space suffix and nothing else. */
  lemma {:induction false} TrimEndShape(s: string)
    ensures |TrimEnd(s)| <= |s| && TrimEnd(s) == s[..|TrimEnd(s)|]
    ensures forall i :: |TrimEnd(s)| <= i < |s| ==> IsSpace(s[i])
    ensures TrimEnd(s) == [] || !IsSpace(TrimEnd(s)[|TrimEnd(s)| - 1])
    decreases |s|
  {
    if s != [] && IsSpace(s[|s| - 1]) {
      TrimEndShape(s[..|s| - 1]);
    }
  }

  /** The number of leading spaces `trim` strips from `s`. */
  function Leading(s: string): nat
  {
    TrimStartShape(s);
    |s| - |TrimStart(s)|
  }

  /** Trim keeps the contiguous run of `s` that starts after its leading
      spaces, strips nothing but spaces, and leaves no space at either end. */
  lemma TrimShape(s: string)
    ensures Leading(s) + |Trim(s)| <= |s|
    ensures Trim(s) == s[Leading(s)..Leading(s) + |Trim(s)|]
    ensures forall k :: 0 <= k < Leading(s) ==> IsSpace(s[k])
    ensures forall k :: Leading(s) + |Trim(s)| <= k < |s| ==> IsSpace(s[k])
    ensures Trim(s) == [] || (!IsSpace(Trim(s)[0]) && !IsSpace(Trim(s)[|Trim(s)| - 1]))
  {
    var t := TrimStart(s);
    TrimStartShape(s);
    var u := TrimEnd(t);
    TrimEndShape(t);
    var i, n := |s| - |t|, |u|;
    assert t == s[i..];
    assert u == t[..n];
    assert u == s[i..i + n];
    forall k | i + n <= k < |s| ensures IsSpace(s[k]) {
      assert s[k] == t[k - i];
    }
  }

  /** Trimming twice is trimming once. */
  lemma TrimIdempotent(s: string)
    ensures Trim(Trim(s)) == Trim(s)
  {
    TrimShape(s);
    var t := Trim(s);
    assert t == [] || !IsSpace(t[0]);
    assert TrimStart(t) == t;
    assert t == [] || !IsSpace(t[|t| - 1]);
  }

  /** ASCII `toLowerCase`: 'A'..'Z' become 'a'..'z', every other character
      is kept. */
  function Lower(c: char): (d: char)
  {
    if 'A' <= c <= 'Z' then (c as int + 32) as char else c
  }

  /** `s.toLowerCase()`, character by character. */
  function LowerString(s: string): (r: string)
    ensures |r| == |s|
    ensures forall i :: 0 <= i < |s| && 'A' <= s[i] <= 'Z' ==> r[i] as int == s[i] as int + 32
    ensures forall i :: 0 <= i < |s| && !('A' <= s[i] <= 'Z') ==> r[i] == s[i]
  {
    seq(|s|, i requires 0 <= i < |s| => Lower(s[i]))
  }

  /** `needle` occurs in `hay` starting at index `i`. */
  predicate OccursAt(needle: string, hay: string, i: int)
  {
    0 <= i && i + |needle| <= |hay| && hay[i..i + |needle|] == needle
  }

  /** `needle` occurs in `hay` as a contiguous run. */
  ghost predicate IsSubstring(needle: string, hay: string)
  {
    exists i :: OccursAt(needle, hay, i)
  }

  /** `hay.includes(needle)`, as a scan over every start position. */
  function Includes(hay: string, needle: string): (b: bool)
    ensures b <==> IsSubstring(needle, hay)
    decreases |hay|
  {
    if |needle| <= |hay| && hay[..|needle|] == needle then
      assert OccursAt(needle, hay, 0);
      true
    else if hay == [] then
      false
    else
      var b := Includes(hay[1..], needle);
      assert b ==> IsSubstring(needle, hay) by {
        if b {
          var i :| OccursAt(needle, hay[1..], i);
          assert hay[1..][i..i + |needle|] == hay[i + 1..i + 1 + |needle|];
          assert OccursAt(needle, hay, i + 1);
        }
      }
      assert IsSubstring(needle, hay) ==> b by {
        if IsSubstring(needle, hay) {
          var i :| OccursAt(needle, hay, i);
          assert i != 0;
          assert hay[1..][i - 1..i - 1 + |needle|] == hay[i..i + |needle|];
          assert OccursAt(needle, hay[1..], i - 1);
        }
      }
      b
  }

  /** `s.split(sep)` for a one-character separator: the pieces between
      separators. There is always at least one piece; "" gives [""]. */
  function Split(s: string, sep: char): (r: seq<string>)
    ensures |r| >= 1
    ensures forall piece :: piece in r ==> sep !in piece
    decreases |s|
  {
    if s == [] then [""]
    else
      var rest := Split(s[1..], sep);
      assert s == [s[0]] + s[1..];
      if s[0] == sep then [""] + rest
      else [[s[0]] + rest[0]] + rest[1..]
  }

  /** `pieces.join(sep)`. */
  function Join(pieces: seq<string>, sep: char): string
    requires |pieces| >= 1
    decreases |pieces|
  {
    if |pieces| == 1 then pieces[0] else pieces[0] + [sep] + Join(pieces[1..], sep)
  }

  /** Joining a first piece onto the rest puts one separator between them. */
  lemma JoinCons(first: string, rest: seq<string>, sep: char)
    requires |rest| >= 1
    ensures Join([first] + rest, sep) == first + [sep] + Join(rest, sep)
  {
    assert ([first] + rest)[1..] == rest;
  }

  /** Gluing a character onto the first piece glues it onto the joined text. */
  lemma JoinGlue(c: char, rest: seq<string>, sep: char)
    requires |rest| >= 1
    ensures Join([[c] + rest[0]] + rest[1..], sep) == [c] + Join(rest, sep)
  {
    if |rest| > 1 {
      JoinCons([c] + rest[0], rest[1..], sep);
      assert rest == [rest[0]] + rest[1..];
      JoinCons(rest[0], rest[1..], sep);
    }
  }

  /** Joining the pieces of a split gives back the original text. */
  lemma {:induction false} JoinSplit(s: string, sep: char)
    ensures Join(Split(s, sep), sep) == s
    decreases |s|
  {
    if s != [] {
      JoinSplit(s[1..], sep);
      var rest := Split(s[1..], sep);
      assert s == [s[0]] + s[1..];
      if s[0] == sep {
        assert Split(s, sep) == [""] + rest;
        JoinCons("", rest, sep);
      } else {
        assert Split(s, sep) == [[s[0]] + rest[0]] + rest[1..];
        JoinGlue(s[0], rest, sep);
      }
    }
  }

  /** Splitting a separator-free prefix followed by `tail` glues the prefix
      onto the first piece of `tail`. */
  lemma {:induction false} SplitPiece(piece: string, tail: string, sep: char)
    requires sep !in piece
    ensures Split(piece + tail, sep) ==
      [piece + Split(tail, sep)[0]] + Split(tail, sep)[1..]
    decreases |piece|
  {
    var t := Split(tail, sep);
    if piece == [] {
      assert piece + tail == tail;
      assert t == [t[0]] + t[1..];
      assert piece + t[0] == t[0];
    } else {
      var s := piece + tail;
      assert s[0] == piece[0] && s[1..] == piece[1..] + tail;
      SplitPiece(piece[1..], tail, sep);
      var rest := Split(s[1..], sep);
      assert rest == [piece[1..] + t[0]] + t[1..];
      assert Split(s, sep) == [[s[0]] + rest[0]] + rest[1..];
      assert [piece[0]] + (piece[1..] + t[0]) == piece + t[0];
    }
  }

  /** A text that starts with the separator splits into an empty piece and
      the pieces of the rest. */
  lemma SplitSepFirst(t: string, sep: char)
    ensures Split([sep] + t, sep) == [""] + Split(t, sep)
  {
    assert ([sep] + t)[1..] == t;
  }

  /** One step of SplitJoin: a separator-free first piece in front of a
      join that already splits back. */
  lemma SplitJoinCons(first: string, rest: seq<string>, sep: char)
    requires |rest| >= 1 && sep !in first
    requires Split(Join(rest, sep), sep) == rest
    ensures Split(Join([first] + rest, sep), sep) == [first] + rest
  {
    var j := Join(rest, sep);
    var tail := [sep] + j;
    JoinCons(first, rest, sep);
    assert first + [sep] + j == first + tail;
    SplitSepFirst(j, sep);
    var st := Split(tail, sep);
    assert st[0] == "" && st[1..] == rest;
    SplitPiece(first, tail, sep);
    assert first + st[0] == first;
  }

  /** Splitting a join of separator-free pieces gives back the pieces. */
  lemma {:induction false} SplitJoin(pieces: seq<string>, sep: char)
    requires |pieces| >= 1
    requires forall piece :: piece in pieces ==> sep !in piece
    ensures Split(Join(pieces, sep), sep) == pieces
    decreases |pieces|
  {
    var first := pieces[0];
    assert sep !in first by {
      assert first in pieces;
    }
    if |pieces| == 1 {
      SplitPiece(first, [], sep);
      assert first + [] == first;
    } else {
      var rest := pieces[1..];
      assert forall piece :: piece in rest ==> piece in pieces;
      SplitJoin(rest, sep);
      assert pieces == [first] + rest;
      SplitJoinCons(first, rest, sep);
    }
  }
}
