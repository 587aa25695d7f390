/** The `String.prototype` methods the background script relies on, for the
    argument shapes it uses: non-negative slice bounds, a one-character
    split separator and a one-character pad. */
module JsStrings {

  /** `s.startsWith(prefix)`: `s` is at least as long as `prefix` and agrees
      with it character by character. */
  function StartsWith(s: string, prefix: string): (b: bool)
    ensures b <==> |prefix| <= |s| && forall i :: 0 <= i < |prefix| ==> s[i] == prefix[i]
  {
    |prefix| <= |s| && s[..|prefix|] == prefix
  }

  /** `needle` occurs in `hay` starting at index `i`. */
  predicate OccursAt(hay: string, needle: string, i: nat) {
    i + |needle| <= |hay| && hay[i..i + |needle|] == needle
  }

  /** `needle` occurs somewhere in `hay` (`hay.includes(needle)`). */
  ghost predicate Contains(hay: string, needle: string) {
    exists i: nat :: OccursAt(hay, needle, i)
  }

  function Min(a: nat, b: nat): nat { if a <= b then a else b }

  /** `s.slice(start, end)` for non-negative bounds: both are clamped to the
      length, and an empty range gives the empty string. */
  function Slice(s: string, start: nat, end: nat): (r: string)
    ensures |r| == if Min(start, |s|) < Min(end, |s|) then Min(end, |s|) - start else 0
    ensures |r| > 0 ==> start + |r| <= |s| && r == s[start..start + |r|]
  {
    var from, to := Min(start, |s|), Min(end, |s|);
    if from < to then s[from..to] else ""
  }

  /** `s.padStart(width, fill)` with a one-character `fill`: `fill` repeated
      in front of `s` until the result is `width` long; a longer `s` is kept. */
  function PadStart(s: string, width: nat, fill: char): (r: string)
    ensures |r| == if |s| < width then width else |s|
    ensures r[|r| - |s|..] == s
    ensures forall i :: 0 <= i < |r| - |s| ==> r[i] == fill
  {
    if |s| >= width then s else seq(width - |s|, _ => fill) + s
  }

  /** `s.split(sep)` for a one-character separator: the pieces between the
      separators, empty ones included, so there is always at least one piece
      and none of them holds the separator (`"".split("/")` is `[""]`). */
  function Split(s: string, sep: char): (r: seq<string>)
    ensures |r| >= 1
    ensures forall i :: 0 <= i < |r| ==> sep !in r[i]
  {
    if s == [] then [""]
    else
      var rest := Split(s[1..], sep);
      if s[0] == sep then [""] + rest else [[s[0]] + rest[0]] + rest[1..]
  }

  /** The total length of the parts. */
  function TotalLength(parts: seq<string>): nat {
    if parts == [] then 0 else |parts[0]| + TotalLength(parts[1..])
  }

  /** `parts.join(sep)`: the parts with `sep` between neighbours; `[].join(sep)`
      is `""`. The result starts with the first part and is as long as the
      parts plus one separator between each two neighbours. */
  function Join(parts: seq<string>, sep: string): (r: string)
    ensures parts == [] ==> r == ""
    ensures parts != [] ==> |r| == TotalLength(parts) + (|parts| - 1) * |sep|
    ensures parts != [] ==> r[..|parts[0]|] == parts[0]
  {
    if parts == [] then ""
    else if |parts| == 1 then parts[0]
    else parts[0] + sep + Join(parts[1..], sep)
  }

  /** Every part can be found in the joined string. */
  lemma {:induction false} JoinContains(parts: seq<string>, sep: string, k: nat)
    requires k < |parts|
    ensures Contains(Join(parts, sep), parts[k])
  {
    var r := Join(parts, sep);
    if k == 0 {
      assert OccursAt(r, parts[0], 0);
    } else {
      var tail := Join(parts[1..], sep);
      JoinContains(parts[1..], sep, k - 1);
      var i: nat :| OccursAt(tail, parts[k], i);
      var off := |parts[0]| + |sep|;
      assert r == parts[0] + sep + tail;
      assert r[off + i..off + i + |parts[k]|] == tail[i..i + |parts[k]|];
      assert OccursAt(r, parts[k], off + i);
    }
  }

  /** Joining the pieces of a split with the same separator gives back the string. */
  lemma {:induction false} JoinSplit(s: string, sep: char)
    ensures Join(Split(s, sep), [sep]) == s
  {
    if s != [] {
      var rest := Split(s[1..], sep);
      JoinSplit(s[1..], sep);
      if s[0] == sep {
        assert ([""] + rest)[1..] == rest;
      } else {
        var r := [[s[0]] + rest[0]] + rest[1..];
        if |rest| == 1 {
          assert Join(rest, [sep]) == rest[0];
        } else {
          assert r[1..] == rest[1..];
          assert Join(rest, [sep]) == rest[0] + [sep] + Join(rest[1..], [sep]);
        }
      }
    }
  }

  /** A string without the separator splits into itself alone. */
  lemma {:induction false} SplitWithout(p: string, sep: char)
    requires sep !in p
    ensures Split(p, sep) == [p]
  {
    if p != [] {
      SplitWithout(p[1..], sep);
      assert [p[0]] + p[1..] == p;
    }
  }

  /** A separator-free head followed by the separator splits off as the first piece. */
  lemma {:induction false} SplitCons(p: string, sep: char, t: string)
    requires sep !in p
    ensures Split(p + [sep] + t, sep) == [p] + Split(t, sep)
  {
    var s := p + [sep] + t;
    if p == [] {
      assert s[1..] == t;
    } else {
      assert s[1..] == p[1..] + [sep] + t;
      SplitCons(p[1..], sep, t);
      assert [p[0]] + p[1..] == p;
    }
  }

  /** Splitting a join of separator-free parts gives back the parts. */
  lemma {:induction false} SplitJoin(parts: seq<string>, sep: char)
    requires |parts| >= 1
    requires forall i :: 0 <= i < |parts| ==> sep !in parts[i]
    ensures Split(Join(parts, [sep]), sep) == parts
  {
    if |parts| == 1 {
      SplitWithout(parts[0], sep);
    } else {
      SplitJoin(parts[1..], sep);
      SplitCons(parts[0], sep, Join(parts[1..], [sep]));
      assert [parts[0]] + parts[1..] == parts;
    }
  }

  /** The last piece of a split is the text after the last separator: it
      holds no separator, ends the string, and is either the whole string or
      preceded by a separator. */
  lemma {:induction false} SplitLast(s: string, sep: char)
    ensures var r := Split(s, sep)[|Split(s, sep)| - 1];
      && sep !in r
      && |r| <= |s| && s[|s| - |r|..] == r
      && (|r| < |s| ==> s[|s| - |r| - 1] == sep)
  {
    if s != [] {
      var rest := Split(s[1..], sep);
      SplitLast(s[1..], sep);
      var last := rest[|rest| - 1];
      assert s[1..][|s| - 1 - |last|..] == s[|s| - |last|..];
      if s[0] != sep && |rest| == 1 {
        JoinSplit(s[1..], sep);
        assert rest[0] == s[1..];
        assert [s[0]] + s[1..] == s;
      } else if s[0] != sep && |last| == |s| - 1 {
        assert last == s[1..];
        SplitWithout(s[1..], sep);
      }
    }
  }
}
