/** The text that `createGyazo` derives before rendering and uploading a
    capture: the short content hash drawn on the image, the resolved title
    and the `desc` form field. The SHA-256 digest and the URL's pathname are
    inputs here; computing them is left to the host. */
module Capture {
  import opened JsValues
  import opened JsStrings

  /** An element of the `Uint8Array` holding the digest. */
  newtype Byte = x: int | 0 <= x < 256

  predicate IsLowerHexDigit(c: char) {
    '0' <= c <= '9' || 'a' <= c <= 'f'
  }

  /** The digit `Number.prototype.toString(16)` writes for `d`: lower case. */
  function HexDigit(d: nat): (c: char)
    requires d < 16
    ensures IsLowerHexDigit(c)
    ensures DigitValue(c) == Some(d)
  {
    if d < 10 then ('0' as int + d) as char else ('a' as int + d - 10) as char
  }

  /** The value of a lower-case hexadecimal digit, and nothing for any other character. */
  function DigitValue(c: char): (r: Option<nat>)
    ensures r.Some? <==> IsLowerHexDigit(c)
    ensures r.Some? ==> r.value < 16
  {
    if '0' <= c <= '9' then Some(c as int - '0' as int)
    else if 'a' <= c <= 'f' then Some(c as int - 'a' as int + 10)
    else None
  }

  /** The number a string of lower-case hexadecimal digits denotes. */
  function HexValue(s: string): nat
    requires forall i :: 0 <= i < |s| ==> IsLowerHexDigit(s[i])
  {
    if s == [] then 0 else 16 * HexValue(s[..|s| - 1]) + DigitValue(s[|s| - 1]).value
  }

  /** `n.toString(16)` for a non-negative integer: lower-case hexadecimal
      digits that denote `n`, with no leading zero. */
  function ToRadix16(n: nat): (r: string)
    ensures |r| >= 1
    ensures forall i :: 0 <= i < |r| ==> IsLowerHexDigit(r[i])
    ensures HexValue(r) == n
    ensures r[0] == '0' ==> n == 0
    decreases n
  {
    if n < 16 then
      var r := [HexDigit(n)];
      assert r[..0] == [];
      r
    else
      var high := ToRadix16(n / 16);
      var r := high + [HexDigit(n % 16)];
      assert r[..|r| - 1] == high;
      r
  }

  /** One digest byte in base 16, padded at the start with '0' to two
      characters: always exactly its high and its low hexadecimal digit. */
  function ByteHex(b: Byte): (r: string)
    ensures r == [HexDigit(b as nat / 16), HexDigit(b as nat % 16)]
  {
    var digits := ToRadix16(b as nat);
    assert b < 16 ==> digits == [HexDigit(b as nat)];
    assert b >= 16 ==> ToRadix16(b as nat / 16) == [HexDigit(b as nat / 16)];
    PadStart(digits, 2, '0')
  }

  /** The digest in hexadecimal: its bytes' two-digit forms, concatenated in order. */
  function Hex(bytes: seq<Byte>): (r: string)
    ensures |r| == 2 * |bytes|
  {
    if bytes == [] then "" else ByteHex(bytes[0]) + Hex(bytes[1..])
  }

  /** The encoding of a non-empty digest is its first byte's two digits
      followed by the encoding of the rest. */
  lemma HexCons(bytes: seq<Byte>)
    requires bytes != []
    ensures Hex(bytes) == [HexDigit(bytes[0] as nat / 16), HexDigit(bytes[0] as nat % 16)] + Hex(bytes[1..])
  {
  }

  /** A byte in front encodes as its two-character form in front. */
  lemma HexConsByte(x: Byte, rest: seq<Byte>)
    ensures Hex([x] + rest) == ByteHex(x) + Hex(rest)
  {
    assert ([x] + rest)[1..] == rest;
  }

  /** Concatenation is associative. */
  lemma ConcatAssoc<T>(x: seq<T>, y: seq<T>, z: seq<T>)
    ensures x + (y + z) == (x + y) + z
  {
  }

  /** The encoding of a concatenation is the concatenation of the encodings. */
  lemma {:induction false} HexAppend(a: seq<Byte>, b: seq<Byte>)
    ensures Hex(a + b) == Hex(a) + Hex(b)
  {
    if a == [] {
      assert a + b == b;
    } else {
      var x, t := a[0], a[1..];
      assert a == [x] + t;
      assert a + b == [x] + (t + b);
      HexConsByte(x, t + b);
      HexConsByte(x, t);
      HexAppend(t, b);
      ConcatAssoc(ByteHex(x), Hex(t), Hex(b));
    }
  }

  /** Characters `2i` and `2i + 1` of the encoding are byte `i`'s digits. */
  lemma HexAt(bytes: seq<Byte>, i: nat)
    requires i < |bytes|
    ensures Hex(bytes)[2 * i] == HexDigit(bytes[i] as nat / 16)
    ensures Hex(bytes)[2 * i + 1] == HexDigit(bytes[i] as nat % 16)
  {
    var before, from := bytes[..i], bytes[i..];
    assert bytes == before + from;
    HexAppend(before, from);
    HexCons(from);
    assert from[0] == bytes[i];
  }

  /** The encoding is made of lower-case hexadecimal digits only. */
  lemma {:induction false} HexIsLowerCase(bytes: seq<Byte>)
    ensures forall j :: 0 <= j < |Hex(bytes)| ==> IsLowerHexDigit(Hex(bytes)[j])
  {
    if bytes != [] {
      HexCons(bytes);
      HexIsLowerCase(bytes[1..]);
    }
  }

  /** The encoding of a prefix of the bytes is the matching prefix of the encoding. */
  lemma HexPrefix(bytes: seq<Byte>, n: nat)
    requires n <= |bytes|
    ensures Hex(bytes[..n]) == Hex(bytes)[..2 * n]
  {
    assert bytes == bytes[..n] + bytes[n..];
    HexAppend(bytes[..n], bytes[n..]);
  }

  /** Reads a lower-case hexadecimal string back into bytes, two digits per byte. */
  function FromHex(s: string): (r: Option<seq<Byte>>)
    ensures r.Some? ==> 2 * |r.value| == |s|
  {
    if s == [] then Some([])
    else if |s| == 1 then None
    else match (DigitValue(s[0]), DigitValue(s[1]), FromHex(s[2..]))
      case (Some(high), Some(low), Some(rest)) => Some([(16 * high + low) as Byte] + rest)
      case _ => None
  }

  /** Two leading digits decode to one byte in front of the decoded rest. */
  lemma FromHexCons(high: nat, low: nat, rest: string)
    requires high < 16 && low < 16
    ensures FromHex([HexDigit(high), HexDigit(low)] + rest)
      == if FromHex(rest).Some? then Some([(16 * high + low) as Byte] + FromHex(rest).value) else None
  {
    var s := [HexDigit(high), HexDigit(low)] + rest;
    assert s[2..] == rest;
  }

  /** Decoding undoes the encoding, so no two digests share an encoding. */
  lemma {:induction false} FromHexHex(bytes: seq<Byte>)
    ensures FromHex(Hex(bytes)) == Some(bytes)
  {
    if bytes != [] {
      var b := bytes[0] as nat;
      HexCons(bytes);
      FromHexHex(bytes[1..]);
      FromHexCons(b / 16, b % 16, Hex(bytes[1..]));
      assert (16 * (b / 16) + b % 16) as Byte == bytes[0];
      assert [bytes[0]] + bytes[1..] == bytes;
    }
  }

  lemma HexInjective(a: seq<Byte>, b: seq<Byte>)
    requires Hex(a) == Hex(b)
    ensures a == b
  {
    FromHexHex(a);
    FromHexHex(b);
  }

  /** The hexadecimal digest sliced to its first eight characters (fewer when it is shorter). */
  function ShortHash(digest: seq<Byte>): (r: string)
    ensures |r| == Min(8, 2 * |digest|)
    ensures r == Hex(digest)[..|r|]
  {
    Slice(Hex(digest), 0, 8)
  }

  /** For a SHA-256 digest (32 bytes) the short hash is eight characters: the
      encoding of the first four bytes. */
  lemma ShortHashOfSha256(digest: seq<Byte>)
    requires |digest| == 32
    ensures |ShortHash(digest)| == 8
    ensures ShortHash(digest) == Hex(digest[..4])
  {
    HexPrefix(digest, 4);
  }

  /** The last piece of the pathname split at `/`: the text after the last `/`. */
  function LastSegment(pathname: string): (r: string)
    ensures '/' !in r
    ensures |r| <= |pathname| && pathname[|pathname| - |r|..] == r
    ensures |r| < |pathname| ==> pathname[|pathname| - |r| - 1] == '/'
  {
    SplitLast(pathname, '/');
    var pieces := Split(pathname, '/');
    pieces[|pieces| - 1]
  }

  /** A pathname that ends in `/` has an empty last segment: `pop` does not
      look back for a non-empty one. */
  lemma TrailingSlash(pathname: string)
    requires |pathname| > 0 && pathname[|pathname| - 1] == '/'
    ensures LastSegment(pathname) == ""
  {

  }

  /** The title drawn on the capture: the given title unless it is `null` or
      `undefined` (both `None` here), else the last segment of the URL's
      pathname. A given title is kept as it is, even the empty one, since
      nullish coalescing does not test for emptiness. */
  function ResolvedTitle(title: Option<string>, pathname: string): (r: string)
    ensures title.Some? ==> r == title.value
    ensures title.None? ==> '/' !in r && |r| <= |pathname| && pathname[|pathname| - |r|..] == r
    ensures title.None? && |r| < |pathname| ==> pathname[|pathname| - |r| - 1] == '/'
  {
    match title
    case Some(t) => t
    case None => LastSegment(pathname)
  }

  /** Filtering by truthiness: drops the absent and the empty entries,
      keeping the order of the others. */
  function Truthy(lines: seq<Option<string>>): (r: seq<string>)
    ensures |r| <= |lines|
    ensures forall i :: 0 <= i < |r| ==> r[i] != ""
  {
    if lines == [] then []
    else
      var rest := Truthy(lines[1..]);
      if lines[0].Some? && lines[0].value != "" then [lines[0].value] + rest else rest
  }

  /** Filtering an entry in front of a list: the entry is kept exactly when
      it is present and non-empty. */
  lemma TruthyCons(x: Option<string>, rest: seq<Option<string>>)
    ensures Truthy([x] + rest) == (if x.Some? && x.value != "" then [x.value] else []) + Truthy(rest)
  {
    assert ([x] + rest)[1..] == rest;
  }

  /** Filtering a concatenation filters each half: the order of the kept
      entries is the order of the input. */
  lemma {:induction false} TruthyAppend(a: seq<Option<string>>, b: seq<Option<string>>)
    ensures Truthy(a + b) == Truthy(a) + Truthy(b)
  {
    if a == [] {
      assert a + b == b;
    } else {
      var x, rest := a[0], a[1..];
      var kept: seq<string> := if x.Some? && x.value != "" then [x.value] else [];
      TruthyAppend(rest, b);
      assert a + b == [x] + (rest + b);
      assert a == [x] + rest;
      TruthyCons(x, rest + b);
      TruthyCons(x, rest);
      ConcatAssoc(kept, Truthy(rest), Truthy(b));
    }
  }

  /** The filter keeps exactly the present, non-empty entries. */
  lemma {:induction false} TruthyMembers(lines: seq<Option<string>>)
    ensures forall s :: s in Truthy(lines) <==> s != "" && Some(s) in lines
  {
    if lines != [] {
      TruthyMembers(lines[1..]);
      TruthyCons(lines[0], lines[1..]);
      assert lines == [lines[0]] + lines[1..];
    }
  }

  /** The lines of the upload's `desc` field: the non-empty ones among the
      title, the URL and the present description. */
  function DescLines(resolvedTitle: string, url: string, description: Option<string>): (r: seq<string>)
    ensures |r| <= 3
    ensures forall s :: s in r <==> s != "" && (s == resolvedTitle || s == url || description == Some(s))
  {
    TruthyMembers([Some(resolvedTitle), Some(url), description]);
    Truthy([Some(resolvedTitle), Some(url), description])
  }

  /** The upload's `desc` field: its lines joined with line breaks. It is
      empty exactly when all three entries are empty or absent, and it
      always contains a non-empty URL. */
  function Desc(resolvedTitle: string, url: string, description: Option<string>): (r: string)
    ensures r == "" <==> resolvedTitle == "" && url == "" && (description.None? || description.value == "")
    ensures url != "" ==> Contains(r, url)
  {
    var lines := DescLines(resolvedTitle, url, description);
    DescLinesInOrder(resolvedTitle, url, description);
    if url == "" then Join(lines, "\n")
    else
      JoinContains(lines, "\n", if resolvedTitle != "" then 1 else 0);
      Join(lines, "\n")
  }

  /** The `desc` lines are the title, the URL and the description, in that
      order, each only when present and non-empty. */
  lemma DescLinesInOrder(resolvedTitle: string, url: string, description: Option<string>)
    ensures DescLines(resolvedTitle, url, description)
      == (if resolvedTitle != "" then [resolvedTitle] else [])
       + (if url != "" then [url] else [])
       + (if description.Some? && description.value != "" then [description.value] else [])
  {
    TruthyCons(description, []);
    TruthyCons(Some(url), [description]);
    TruthyCons(Some(resolvedTitle), [Some(url), description]);
    assert [Some(url), description] == [Some(url)] + [description];
    assert [Some(resolvedTitle), Some(url), description] == [Some(resolvedTitle)] + [Some(url), description];
  }

  /** When no entry holds a line break and at least one is non-empty,
      splitting `desc` at line breaks recovers exactly its lines. */
  lemma DescSplitsBack(resolvedTitle: string, url: string, description: Option<string>)
    requires '\n' !in resolvedTitle && '\n' !in url
    requires description.Some? ==> '\n' !in description.value
    requires DescLines(resolvedTitle, url, description) != []
    ensures Split(Desc(resolvedTitle, url, description), '\n') == DescLines(resolvedTitle, url, description)
  {
    var lines := DescLines(resolvedTitle, url, description);
    DescLinesInOrder(resolvedTitle, url, description);
    SplitJoin(lines, '\n');
  }
}
