/**
 * The two string rules of the upload route: the name under which an
 * uploaded image is stored (16 random bytes in lower-case hex followed by
 * ".bin") and the filter that admits an upload only when the lower-cased
 * extension of its original name is ".bin".
 */
module FirmwareNames {
  import opened Wrappers

  newtype Byte = b: int | 0 <= b < 256

  /** Number of random bytes drawn for a stored name. */
  const RandomBytes: nat := 16
  /** The only extension the filter admits, and the one stored names carry. */
  const Extension: string := ".bin"
  /** The upload size limit, 10 MiB. */
  const MaxFileSize: nat := 10 * 1024 * 1024

  const HexDigits: string := "0123456789abcdef"

  predicate IsHexDigit(c: char) {
    '0' <= c <= '9' || 'a' <= c <= 'f'
  }

  function HexDigit(n: int): (c: char)
    requires 0 <= n < 16
    ensures IsHexDigit(c)
  {
    HexDigits[n]
  }

  /** The value of a lower-case hex digit; the inverse of HexDigit. */
  function HexValue(c: char): (n: int)
    requires IsHexDigit(c)
    ensures 0 <= n < 16 && HexDigit(n) == c
  {
    if c <= '9' then c as int - '0' as int else c as int - 'a' as int + 10
  }

  lemma HexValueOfDigit(n: int)
    requires 0 <= n < 16
    ensures HexValue(HexDigit(n)) == n
  {
  }

  /** Lower-case hexadecimal encoding, two digits per byte, high nibble first. */
  function Hex(bytes: seq<Byte>): (s: string)
    ensures |s| == 2 * |bytes|
    ensures forall i :: 0 <= i < |s| ==> IsHexDigit(s[i])
  {
    if bytes == [] then []
    else [HexDigit(bytes[0] as int / 16), HexDigit(bytes[0] as int % 16)] + Hex(bytes[1..])
  }

  /** Reads back a string of hex digit pairs. */
  function Unhex(s: string): (bytes: seq<Byte>)
    requires |s| % 2 == 0
    requires forall i :: 0 <= i < |s| ==> IsHexDigit(s[i])
    ensures 2 * |bytes| == |s|
  {
    if s == [] then []
    else [(16 * HexValue(s[0]) + HexValue(s[1])) as Byte] + Unhex(s[2..])
  }

  lemma {:induction false} UnhexHex(bytes: seq<Byte>)
    ensures Unhex(Hex(bytes)) == bytes
  {
    if bytes != [] {
      var b := bytes[0] as int;
      var s := Hex(bytes);
      assert s[2..] == Hex(bytes[1..]);
      HexValueOfDigit(b / 16);
      HexValueOfDigit(b % 16);
      UnhexHex(bytes[1..]);
    }
  }

  /** The stored name of an upload: its random bytes in hex, then ".bin". */
  function StoredName(random: seq<Byte>): (name: string)
    requires |random| == RandomBytes
    ensures |name| == 36 && name[32..] == Extension
    ensures forall i :: 0 <= i < 32 ==> IsHexDigit(name[i])
  {
    Hex(random) + Extension
  }

  /** Distinct random draws give distinct stored names. */
  lemma StoredNameInjective(a: seq<Byte>, b: seq<Byte>)
    requires |a| == RandomBytes && |b| == RandomBytes
    requires StoredName(a) == StoredName(b)
    ensures a == b
  {
    assert Hex(a) == StoredName(a)[..32];
    assert Hex(b) == StoredName(b)[..32];
    UnhexHex(a);
    UnhexHex(b);
  }

  // ---------------------------------------------------------------------
  // The extension of a path, as the POSIX flavour of Node's path.extname
  // computes it: trailing separators are ignored, only the last path
  // component is examined, and the extension starts at its last dot unless
  // that dot is the component's first character or the component is "..".

  function LastIndexOf(s: string, c: char): (r: Option<nat>)
    ensures r.Some? ==> r.value < |s| && s[r.value] == c
    ensures r.Some? ==> forall j :: r.value < j < |s| ==> s[j] != c
    ensures r.None? ==> forall j :: 0 <= j < |s| ==> s[j] != c
  {
    if s == [] then None
    else if s[|s| - 1] == c then Some(|s| - 1)
    else LastIndexOf(s[..|s| - 1], c)
  }

  function TrimTrailingSlashes(path: string): (r: string)
    ensures r <= path
    ensures r == [] || r[|r| - 1] != '/'
    ensures forall j :: |r| <= j < |path| ==> path[j] == '/'
  {
    if path != [] && path[|path| - 1] == '/' then TrimTrailingSlashes(path[..|path| - 1])
    else path
  }

  /** The last path component of a path. */
  function Basename(path: string): (base: string)
    ensures forall j :: 0 <= j < |base| ==> base[j] != '/'
    ensures '/' !in path ==> base == path
  {
    match LastIndexOf(path, '/')
    case None => path
    case Some(k) => path[k + 1..]
  }

  /** The extension of one path component. */
  function ComponentExt(base: string): (ext: string)
    ensures ext == [] || (ext[0] == '.' && forall j :: 0 < j < |ext| ==> ext[j] != '.')
    ensures ext != [] ==> |ext| <= |base| && ext == base[|base| - |ext|..]
    ensures ext == [] <==>
      || (forall j :: 0 <= j < |base| ==> base[j] != '.')
      || (base[0] == '.' && forall j :: 0 < j < |base| ==> base[j] != '.')
      || base == ".."
  {
    match LastIndexOf(base, '.')
    case None => ""
    case Some(k) => if k == 0 || base == ".." then "" else base[k..]
  }

  /**
   * path.extname: the last component's suffix from its last dot, or empty
   * when that component has no dot, has its only dot in front, or is "..".
   */
  function Extname(path: string): (ext: string)
    ensures ext == [] || (ext[0] == '.' && forall j :: 0 < j < |ext| ==> ext[j] != '.')
    ensures var base := Basename(TrimTrailingSlashes(path));
      ext != [] ==> |ext| <= |base| && ext == base[|base| - |ext|..]
    ensures var base := Basename(TrimTrailingSlashes(path));
      ext == [] <==>
        || (forall j :: 0 <= j < |base| ==> base[j] != '.')
        || (base[0] == '.' && forall j :: 0 < j < |base| ==> base[j] != '.')
        || base == ".."
  {
    ComponentExt(Basename(TrimTrailingSlashes(path)))
  }

  /** String.prototype.toLowerCase restricted to ASCII letters. */
  function LowerChar(c: char): char {
    if 'A' <= c <= 'Z' then (c as int - 'A' as int + 'a' as int) as char else c
  }

  function Lower(s: string): (r: string)
    ensures |r| == |s|
  {
    seq(|s|, i requires 0 <= i < |s| => LowerChar(s[i]))
  }

  /** The upload filter: the original name's lower-cased extension is ".bin". */
  predicate AcceptFile(originalName: string) {
    Lower(Extname(originalName)) == Extension
  }

  lemma LowerDot(s: string)
    requires |s| == 4 && Lower(s) == Extension
    ensures s[0] == '.' && s[1] != '.' && s[2] != '.' && s[3] != '.'
  {
    assert Lower(s)[0] == LowerChar(s[0]);
    assert Lower(s)[1] == LowerChar(s[1]);
    assert Lower(s)[2] == LowerChar(s[2]);
    assert Lower(s)[3] == LowerChar(s[3]);
  }

  lemma LowerExtension()
    ensures Lower(Extension) == Extension
  {
    var e := Lower(Extension);
    assert e[0] == '.' && e[1] == 'b' && e[2] == 'i' && e[3] == 'n';
  }

  /** A component ending in a dot and three non-dots has those four characters as its extension. */
  lemma ComponentExtIsTail(base: string)
    requires var n := |base|;
      n > 4 && base[n - 4] == '.' && base[n - 3] != '.' && base[n - 2] != '.' && base[n - 1] != '.'
    ensures ComponentExt(base) == base[|base| - 4..]
  {
    var r := LastIndexOf(base, '.');
    assert r.Some? && r.value >= |base| - 4;
  }

  /**
   * The filter admits exactly the names whose last component is longer
   * than ".bin" and ends, ignoring ASCII case, in ".bin".
   */
  lemma AcceptFileIff(originalName: string)
    ensures var base := Basename(TrimTrailingSlashes(originalName));
      AcceptFile(originalName) <==> |base| > 4 && Lower(base[|base| - 4..]) == Extension
  {
    var base := Basename(TrimTrailingSlashes(originalName));
    var n := |base|;
    if AcceptFile(originalName) {
      var ext := Extname(originalName);
      assert |ext| == 4;
      var k := LastIndexOf(base, '.').value;
      assert ext == base[k..];
      assert k == n - 4 && k > 0;
    }
    if n > 4 && Lower(base[n - 4..]) == Extension {
      var tail := base[n - 4..];
      LowerDot(tail);
      assert base[n - 4] == tail[0] && base[n - 3] == tail[1] && base[n - 2] == tail[2] && base[n - 1] == tail[3];
      ComponentExtIsTail(base);
    }
  }

  /** Without separators, the rule reads on the whole name. */
  lemma AcceptPlainName(originalName: string)
    requires '/' !in originalName
    ensures AcceptFile(originalName) <==>
      |originalName| > 4 && Lower(originalName[|originalName| - 4..]) == Extension
  {
    AcceptFileIff(originalName);
    assert TrimTrailingSlashes(originalName) == originalName;
  }

  /** Every stored name would itself pass the upload filter. */
  lemma StoredNameAccepted(random: seq<Byte>)
    requires |random| == RandomBytes
    ensures AcceptFile(StoredName(random))
  {
    var name := StoredName(random);
    assert name[32..] == Extension;
    assert name[32] == '.' && name[33] == 'b' && name[34] == 'i' && name[35] == 'n';
    assert '/' !in name by {
      forall j | 0 <= j < |name| ensures name[j] != '/' {
        if j < 32 {
          assert IsHexDigit(name[j]);
        }
      }
    }
    assert TrimTrailingSlashes(name) == name;
    assert Basename(name) == name;
    ComponentExtIsTail(name);
    LowerExtension();
  }
}
