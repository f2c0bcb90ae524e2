// File-system paths as sequences of components. A component is either text or an
// operating-system string that is not valid UTF-8 (the case `to_str` rejects).
module Paths {
  import opened Wrappers

  /** An octet of an operating-system string. */
  newtype byte = x: int | 0 <= x < 256

  datatype Component = Utf8(text: string) | NonUtf8(bytes: seq<byte>)

  type Path = seq<Component>

  const ParentDir: Component := Utf8("..")

  predicate IsUtf8(p: Path) {
    forall i :: 0 <= i < |p| ==> p[i].Utf8?
  }

  /** The text of every component; only defined when all of them are UTF-8. */
  function Texts(p: Path): (r: seq<string>)
    requires IsUtf8(p)
    ensures |r| == |p| && forall i :: 0 <= i < |p| ==> r[i] == p[i].text
  {
    if p == [] then [] else [p[0].text] + Texts(p[1..])
  }

  /** Components joined by '/', as `Path::to_str` shows a relative path. */
  function Render(p: Path): string
    requires IsUtf8(p)
  {
    JoinWithSlash(Texts(p))
  }

  function JoinWithSlash(parts: seq<string>): string {
    if parts == [] then ""
    else if |parts| == 1 then parts[0]
    else parts[0] + "/" + JoinWithSlash(parts[1..])
  }

  /** `Path::to_str`: fails exactly when some component is not UTF-8. */
  function ToStr(p: Path): (r: Option<string>)
    ensures r.Some? <==> IsUtf8(p)
    ensures r.Some? ==> r.value == Render(p)
  {
    if IsUtf8(p) then Some(Render(p)) else None
  }

  /** Index of the first component that is not UTF-8 (|p| when there is none). */
  function FirstNonUtf8(p: Path): (k: nat)
    ensures k <= |p| && IsUtf8(p[..k])
    ensures k < |p| ==> p[k].NonUtf8?
    ensures k == |p| <==> IsUtf8(p)
  {
    if p == [] then 0
    else if p[0].NonUtf8? then 0
    else
      var k := 1 + FirstNonUtf8(p[1..]);
      assert p[..k] == [p[0]] + p[1..][..k - 1];
      k
  }

  predicate IsPrefix(prefix: Path, p: Path) {
    |prefix| <= |p| && p[..|prefix|] == prefix
  }

  /** `Path::strip_prefix`. */
  function StripPrefix(p: Path, base: Path): (r: Option<Path>)
    ensures r.Some? <==> IsPrefix(base, p)
    ensures r.Some? ==> base + r.value == p
  {
    if IsPrefix(base, p) then
      assert base + p[|base|..] == p;
      Some(p[|base|..])
    else None
  }

  /** `Path::parent`: everything but the last component; the empty path has none. */
  function Parent(p: Path): (r: Option<Path>)
    ensures r.Some? <==> p != []
    ensures r.Some? ==> exists c :: r.value + [c] == p
  {
    if p == [] then None
    else
      assert p[..|p| - 1] + [p[|p| - 1]] == p;
      Some(p[..|p| - 1])
  }

  /** Length of the longest common prefix of two paths. */
  function CommonPrefixLength(a: Path, b: Path): (n: nat)
    ensures n <= |a| && n <= |b| && a[..n] == b[..n]
    ensures n < |a| && n < |b| ==> a[n] != b[n]
  {
    if a == [] || b == [] || a[0] != b[0] then 0
    else
      var n := 1 + CommonPrefixLength(a[1..], b[1..]);
      assert a[..n] == [a[0]] + a[1..][..n - 1];
      assert b[..n] == [b[0]] + b[1..][..n - 1];
      n
  }

  function ParentDirs(k: nat): (r: Path)
    ensures |r| == k && forall i :: 0 <= i < k ==> r[i] == ParentDir
  {
    if k == 0 then [] else [ParentDir] + ParentDirs(k - 1)
  }

  /** `pathdiff::diff_paths(path, base)` for two relative paths made of ordinary
      components: one ".." for each component of `base` past the common prefix, then
      the rest of `path`. */
  function DiffPaths(path: Path, base: Path): Path {
    var n := CommonPrefixLength(path, base);
    ParentDirs(|base| - n) + path[n..]
  }

  predicate Ordinary(p: Path) {
    forall i :: 0 <= i < |p| ==> p[i] != ParentDir
  }

  /** Interpreting a relative path against a directory: ".." leaves a component,
      anything else enters one. */
  function Resolve(base: Path, rel: Path): Path
    decreases |rel|
  {
    if rel == [] then base
    else if rel[0] == ParentDir then Resolve(if base == [] then [] else base[..|base| - 1], rel[1..])
    else Resolve(base + [rel[0]], rel[1..])
  }

  lemma {:induction false} ResolveOrdinary(base: Path, rel: Path)
    requires Ordinary(rel)
    ensures Resolve(base, rel) == base + rel
    decreases |rel|
  {
    if rel != [] {
      ResolveOrdinary(base + [rel[0]], rel[1..]);
      assert base + [rel[0]] + rel[1..] == base + rel;
    }
  }

  lemma {:induction false} ResolveParentDirs(base: Path, k: nat, rest: Path)
    requires k <= |base|
    ensures Resolve(base, ParentDirs(k) + rest) == Resolve(base[..|base| - k], rest)
    decreases k
  {
    if k > 0 {
      var rel := ParentDirs(k) + rest;
      var up := base[..|base| - 1];
      assert rel[0] == ParentDir;
      assert rel[1..] == ParentDirs(k - 1) + rest;
      calc {
        Resolve(base, rel);
        Resolve(up, ParentDirs(k - 1) + rest);
        { ResolveParentDirs(up, k - 1, rest); }
        Resolve(up[..|up| - (k - 1)], rest);
        { assert up[..|up| - (k - 1)] == base[..|base| - k]; }
        Resolve(base[..|base| - k], rest);
      }
    } else {
      assert ParentDirs(k) + rest == rest;
      assert base[..|base| - k] == base;
    }
  }

  /** The relative path to a UTF-8 path is UTF-8: its ".." components are. */
  lemma DiffPathsUtf8(path: Path, base: Path)
    requires IsUtf8(path)
    ensures IsUtf8(DiffPaths(path, base))
  {
    var n := CommonPrefixLength(path, base);
    var ups := ParentDirs(|base| - n);
    var d := DiffPaths(path, base);
    assert d == ups + path[n..];
    forall i | 0 <= i < |d|
      ensures d[i].Utf8?
    {
      if i < |ups| {
        assert d[i] == ups[i] == ParentDir;
      } else {
        assert d[i] == path[n + (i - |ups|)];
      }
    }
  }

  /** The relative path from `base` to `path` leads from `base` back to `path`. */
  lemma DiffPathsResolves(path: Path, base: Path)
    requires Ordinary(path)
    ensures Resolve(base, DiffPaths(path, base)) == path
  {
    var n := CommonPrefixLength(path, base);
    ResolveParentDirs(base, |base| - n, path[n..]);
    assert base[..|base| - (|base| - n)] == base[..n] == path[..n];
    assert Ordinary(path[n..]);
    ResolveOrdinary(path[..n], path[n..]);
    assert path[..n] + path[n..] == path;
  }

  /** `PathBuf::push` of a relative name onto a path held as text: a separator is
      added unless the text is empty or already ends in one. */
  function JoinStr(base: string, name: string): (r: string)
    ensures |base| > 0 && base[|base| - 1] != '/' ==> r == base + "/" + name
    ensures |base| == 0 || base[|base| - 1] == '/' ==> r == base + name
  {
    if |base| > 0 && base[|base| - 1] != '/' then base + "/" + name else base + name
  }

  /** `{:?}` of a UTF-8 path's text: quoted, every character as `escape_debug` shows it. */
  function DebugStr(s: string): string {
    "\"" + EscapeDebug(s) + "\""
  }

  function EscapeDebug(s: string): string {
    if s == [] then ""
    else EscapeChar(s[0]) + EscapeDebug(s[1..])
  }

  /** The characters below U+0100 that Rust's table of printable characters leaves out:
      the C0 controls, U+007F through U+00A0, and the soft hyphen U+00AD. */
  predicate NonPrintableLatin1(c: char) {
    c < ' ' || ('\U{7F}' <= c <= '\U{A0}') || c == '\U{AD}'
  }

  /** `char::escape_debug`, which `{:?}` of a path applies to every character: a
      backslash escape for NUL, tab, return, newline, backslash and both quotes, a
      `\u{..}` escape for a character that is not printable, the character itself
      otherwise. */
  function EscapeChar(c: char): string {
    if c == '\0' then "\\0"
    else if c == '\t' then "\\t"
    else if c == '\r' then "\\r"
    else if c == '\n' then "\\n"
    else if c == '\\' then "\\\\"
    else if c == '"' then "\\\""
    else if c == '\'' then "\\'"
    else if NonPrintableLatin1(c) then EscapeUnicode(c)
    else [c]
  }

  /** `char::escape_unicode`: the code point in lower-case hexadecimal, without leading
      zeros, between "\u{" and "}". */
  function EscapeUnicode(c: char): string {
    "\\u{" + LowerHex(c as int) + "}"
  }

  /** Whether `escape_debug` leaves a character as it is. */
  predicate ShownAsItself(c: char) {
    c !in "\0\t\r\n\\\"'" && !NonPrintableLatin1(c)
  }

  /** `escape_debug` shows a character as itself exactly when `ShownAsItself` holds, and
      otherwise as an escape of at least two characters. */
  lemma EscapeCharItself(c: char)
    ensures ShownAsItself(c) ==> EscapeChar(c) == [c]
    ensures !ShownAsItself(c) ==> |EscapeChar(c)| >= 2
  {
    if NonPrintableLatin1(c) {
      assert |EscapeUnicode(c)| >= 4;
    }
  }

  const LowerHexDigits: string := "0123456789abcdef"
  const UpperHexDigits: string := "0123456789ABCDEF"

  /** `n` in lower-case hexadecimal, without leading zeros. */
  function LowerHex(n: nat): (r: string)
    ensures 1 <= |r| && forall i :: 0 <= i < |r| ==> r[i] in LowerHexDigits
    decreases n
  {
    if n < 16 then [LowerHexDigits[n]] else LowerHex(n / 16) + [LowerHexDigits[n % 16]]
  }

  /** A byte that is not part of a well-formed character, as `{:?}` shows it: "\xNN", in
      upper case. */
  function EscapeByte(b: byte): string {
    var n := b as int;
    "\\x" + [UpperHexDigits[n / 16], UpperHexDigits[n % 16]]
  }

  predicate InRange(b: byte, lo: int, hi: int) {
    lo <= b as int <= hi
  }

  /** The length of the well-formed UTF-8 sequence `bytes` starts with (Table 3-7 of the
      Unicode Standard, which is what `Utf8Chunks` accepts), or 0 when it starts with
      none. */
  function SequenceLength(bytes: seq<byte>): (n: nat)
    requires bytes != []
    ensures n <= 4 && n <= |bytes|
  {
    var b0 := bytes[0] as int;
    if b0 < 0x80 then 1
    else if 0xC2 <= b0 <= 0xDF then
      if |bytes| >= 2 && InRange(bytes[1], 0x80, 0xBF) then 2 else 0
    else if 0xE0 <= b0 <= 0xEF then
      var lo := if b0 == 0xE0 then 0xA0 else 0x80;
      var hi := if b0 == 0xED then 0x9F else 0xBF;
      if |bytes| >= 3 && InRange(bytes[1], lo, hi) && InRange(bytes[2], 0x80, 0xBF) then 3 else 0
    else if 0xF0 <= b0 <= 0xF4 then
      var lo := if b0 == 0xF0 then 0x90 else 0x80;
      var hi := if b0 == 0xF4 then 0x8F else 0xBF;
      if |bytes| >= 4 && InRange(bytes[1], lo, hi) && InRange(bytes[2], 0x80, 0xBF) && InRange(bytes[3], 0x80, 0xBF) then 4
      else 0
    else 0
  }

  /** The character the well-formed sequence at the start of `bytes` encodes. */
  function DecodeSequence(bytes: seq<byte>): char
    requires bytes != [] && SequenceLength(bytes) > 0
  {
    var n := SequenceLength(bytes);
    var b0 := bytes[0] as int;
    if n == 1 then b0 as char
    else
      var x1 := bytes[1] as int - 0x80;
      if n == 2 then ((b0 - 0xC0) * 0x40 + x1) as char
      else
        var x2 := bytes[2] as int - 0x80;
        if n == 3 then ((b0 - 0xE0) * 0x1000 + x1 * 0x40 + x2) as char
        else
          var x3 := bytes[3] as int - 0x80;
          ((b0 - 0xF0) * 0x40000 + x1 * 0x1000 + x2 * 0x40 + x3) as char
  }

  /** `{:?}` of a component that is not UTF-8 (`Utf8Chunks`): every well-formed character
      escaped as in text, every other byte as "\xNN". Rust takes an ill-formed
      sequence's lead byte together with the continuation bytes that follow it, but it
      prints each of them as "\xNN", and a continuation byte starts no sequence of its
      own (`ContinuationStartsNothing`), so going on one byte at a time prints the
      same. */
  function DebugBytes(bytes: seq<byte>): string
    decreases |bytes|
  {
    if bytes == [] then ""
    else if SequenceLength(bytes) == 0 then EscapeByte(bytes[0]) + DebugBytes(bytes[1..])
    else EscapeChar(DecodeSequence(bytes)) + DebugBytes(bytes[SequenceLength(bytes)..])
  }

  /** The UTF-8 encoding of a character. */
  function EncodeChar(c: char): (r: seq<byte>)
    ensures 1 <= |r| <= 4
  {
    var n := c as int;
    if n < 0x80 then [n as byte]
    else if n < 0x800 then [(0xC0 + n / 0x40) as byte, (0x80 + n % 0x40) as byte]
    else if n < 0x10000 then [(0xE0 + n / 0x1000) as byte, (0x80 + n / 0x40 % 0x40) as byte, (0x80 + n % 0x40) as byte]
    else [(0xF0 + n / 0x40000) as byte, (0x80 + n / 0x1000 % 0x40) as byte, (0x80 + n / 0x40 % 0x40) as byte, (0x80 + n % 0x40) as byte]
  }

  /** The UTF-8 encoding of a text. */
  function Encode(s: string): seq<byte> {
    if s == [] then [] else EncodeChar(s[0]) + Encode(s[1..])
  }

  /** Decoding reads back exactly the character an encoding starts with, whatever
      follows it. */
  lemma DecodeEncodeChar(c: char, rest: seq<byte>)
    ensures SequenceLength(EncodeChar(c) + rest) == |EncodeChar(c)|
    ensures DecodeSequence(EncodeChar(c) + rest) == c
  {
    var n := c as int;
    if n < 0x80 {
    } else if n < 0x800 {
      DecodeTwo(c, rest);
    } else if n < 0x10000 {
      DecodeThree(c, rest);
    } else {
      DecodeFour(c, rest);
    }
  }

  lemma DecodeTwo(c: char, rest: seq<byte>)
    requires 0x80 <= c as int < 0x800
    ensures SequenceLength(EncodeChar(c) + rest) == 2
    ensures DecodeSequence(EncodeChar(c) + rest) == c
  {
    var n := c as int;
    var bytes := EncodeChar(c) + rest;
    var hi, lo := n / 0x40, n % 0x40;
    assert n == hi * 0x40 + lo && 2 <= hi < 0x20;
    assert bytes[0] as int == 0xC0 + hi && bytes[1] as int == 0x80 + lo;
  }

  lemma DecodeThree(c: char, rest: seq<byte>)
    requires 0x800 <= c as int < 0x10000
    ensures SequenceLength(EncodeChar(c) + rest) == 3
    ensures DecodeSequence(EncodeChar(c) + rest) == c
  {
    var n := c as int;
    var bytes := EncodeChar(c) + rest;
    var q := n / 0x40;
    var x0, x1, x2 := n / 0x1000, q % 0x40, n % 0x40;
    assert n == q * 0x40 + x2;
    assert q == x0 * 0x40 + x1;
    assert n == x0 * 0x1000 + x1 * 0x40 + x2;
    assert x0 < 0x10;
    assert bytes[0] as int == 0xE0 + x0 && bytes[1] as int == 0x80 + x1 && bytes[2] as int == 0x80 + x2;
    assert x0 == 0 ==> x1 >= 0x20;
    assert x0 == 0xD ==> x1 < 0x20;
  }

  lemma DecodeFour(c: char, rest: seq<byte>)
    requires 0x10000 <= c as int
    ensures SequenceLength(EncodeChar(c) + rest) == 4
    ensures DecodeSequence(EncodeChar(c) + rest) == c
  {
    var n := c as int;
    var bytes := EncodeChar(c) + rest;
    var q1 := n / 0x40;
    var q2 := n / 0x1000;
    var x0, x1, x2, x3 := n / 0x40000, q2 % 0x40, q1 % 0x40, n % 0x40;
    assert n == q1 * 0x40 + x3;
    assert q1 == q2 * 0x40 + x2;
    assert q2 == x0 * 0x40 + x1;
    assert n == x0 * 0x40000 + x1 * 0x1000 + x2 * 0x40 + x3;
    assert x0 <= 4;
    assert bytes[0] as int == 0xF0 + x0 && bytes[1] as int == 0x80 + x1
           && bytes[2] as int == 0x80 + x2 && bytes[3] as int == 0x80 + x3;
    assert x0 == 0 ==> x1 >= 0x10;
    assert x0 == 4 ==> x1 < 0x10;
  }

  /** A component whose bytes are well-formed UTF-8 shows under `{:?}` as the text they
      encode would. */
  lemma {:induction false} DebugBytesOfEncoded(s: string)
    ensures DebugBytes(Encode(s)) == EscapeDebug(s)
  {
    if s != [] {
      var e, rest := EncodeChar(s[0]), Encode(s[1..]);
      DecodeEncodeChar(s[0], rest);
      assert (e + rest)[|e|..] == rest;
      DebugBytesOfEncoded(s[1..]);
    }
  }

  lemma ContinuationStartsNothing(bytes: seq<byte>)
    requires bytes != [] && InRange(bytes[0], 0x80, 0xBF)
    ensures SequenceLength(bytes) == 0
  {
  }

  function DebugComponent(c: Component): string {
    match c
    case Utf8(text) => EscapeDebug(text)
    case NonUtf8(bytes) => DebugBytes(bytes)
  }

  function DebugComponents(p: Path): string {
    if p == [] then ""
    else if |p| == 1 then DebugComponent(p[0])
    else DebugComponent(p[0]) + "/" + DebugComponents(p[1..])
  }

  /** `{:?}` of a `PathBuf`. */
  function Debug(p: Path): string {
    "\"" + DebugComponents(p) + "\""
  }

  /** For a UTF-8 path, `{:?}` is the quoted, escaped `to_str` text. */
  lemma {:induction false} DebugOfUtf8(p: Path)
    requires IsUtf8(p)
    ensures Debug(p) == DebugStr(Render(p))
  {
    DebugComponentsOfUtf8(p);
  }

  lemma {:induction false} DebugComponentsOfUtf8(p: Path)
    requires IsUtf8(p)
    ensures DebugComponents(p) == EscapeDebug(Render(p))
  {
    if |p| > 1 {
      var t, rest := p[0].text, Render(p[1..]);
      DebugComponentsOfUtf8(p[1..]);
      RenderCons(p);
      EscapeDebugAppend(t, "/" + rest);
      EscapeDebugAppend("/", rest);
      EscapeSlash();
      calc {
        DebugComponents(p);
        DebugComponent(p[0]) + "/" + DebugComponents(p[1..]);
        EscapeDebug(t) + "/" + EscapeDebug(rest);
        EscapeDebug(t) + (EscapeDebug("/") + EscapeDebug(rest));
        EscapeDebug(t) + EscapeDebug("/" + rest);
        EscapeDebug(t + ("/" + rest));
      }
    } else if |p| == 1 {
      assert Texts(p) == [p[0].text];
    }
  }

  lemma EscapeSlash()
    ensures EscapeDebug("/") == "/"
  {
    assert EscapeDebug("/"[1..]) == "";
  }

  lemma RenderCons(p: Path)
    requires IsUtf8(p) && |p| > 1
    ensures Render(p) == p[0].text + ("/" + Render(p[1..]))
  {
    assert Texts(p)[1..] == Texts(p[1..]);
  }

  /** Pushing a UTF-8 name onto a UTF-8 path adds "/name" to its text (just "name" to
      the empty path). */
  lemma {:induction false} RenderSnoc(p: Path, name: string)
    requires IsUtf8(p)
    ensures IsUtf8(p + [Utf8(name)])
    ensures Render(p + [Utf8(name)]) == if p == [] then name else Render(p) + "/" + name
  {
    var q := p + [Utf8(name)];
    if |p| == 0 {
      assert q == [Utf8(name)];
    } else if |p| == 1 {
      RenderCons(q);
      assert q[1..] == [Utf8(name)];
    } else {
      RenderCons(q);
      RenderCons(p);
      assert q[1..] == p[1..] + [Utf8(name)];
      RenderSnoc(p[1..], name);
    }
  }

  lemma {:induction false} EscapeDebugAppend(a: string, b: string)
    ensures EscapeDebug(a + b) == EscapeDebug(a) + EscapeDebug(b)
  {
    if a != [] {
      assert (a + b)[0] == a[0];
      assert (a + b)[1..] == a[1..] + b;
      EscapeDebugAppend(a[1..], b);
      calc {
        EscapeDebug(a + b);
        EscapeChar(a[0]) + EscapeDebug(a[1..] + b);
        EscapeChar(a[0]) + (EscapeDebug(a[1..]) + EscapeDebug(b));
        (EscapeChar(a[0]) + EscapeDebug(a[1..])) + EscapeDebug(b);
      }
    } else {
      assert a + b == b;
    }
  }
}
