/** Names derived from a resource: the file each resource type is tracked in, and the
    double-quoted form Go's `%q` verb gives a name in the removal commit message. */
module Naming {
  import opened Common

  /** The type descriptor of a resource (its instance name plays no part in the file name). */
  datatype GroupVersionKind = GroupVersionKind(group: string, version: string, kind: string)

  predicate IsUpper(c: char) { 'A' <= c <= 'Z' }

  /** Lower-casing of one character, on the ASCII range. */
  function LowerChar(c: char): char
  {
    if IsUpper(c) then (c as int + 32) as char else c
  }

  /** `strings.ToLower`: the same characters with every upper-case letter lowered. */
  function ToLower(s: string): (r: string)
    ensures |r| == |s|
    ensures forall i :: 0 <= i < |s| ==> r[i] == LowerChar(s[i])
    ensures forall i :: 0 <= i < |r| ==> !IsUpper(r[i])
  {
    if s == [] then [] else [LowerChar(s[0])] + ToLower(s[1..])
  }

  lemma {:induction false} ToLowerAppend(a: string, b: string)
    ensures ToLower(a + b) == ToLower(a) + ToLower(b)
  {
    if a == [] {
      assert a + b == b;
    } else {
      assert (a + b)[1..] == a[1..] + b;
      ToLowerAppend(a[1..], b);
    }
  }

  /** `resourceFilename`: `Kind.Version.Group.yaml`, lower-cased as a whole. */
  function ResourceFilename(gvk: GroupVersionKind): (r: string)
    ensures r == ToLower(gvk.kind) + "." + ToLower(gvk.version) + "." + ToLower(gvk.group) + ".yaml"
    ensures forall i :: 0 <= i < |r| ==> !IsUpper(r[i])
    ensures |r| == |gvk.kind| + |gvk.version| + |gvk.group| + 7
    ensures r[|r| - 5..] == ".yaml"
  {
    FilenameParts(gvk.kind, gvk.version, gvk.group);
    ToLower(gvk.kind + "." + gvk.version + "." + gvk.group + ".yaml")
  }

  /** Lower-casing the whole name lower-cases each part and leaves the dots and `.yaml` alone. */
  lemma FilenameParts(k: string, v: string, g: string)
    ensures ToLower(k + "." + v + "." + g + ".yaml")
         == ToLower(k) + "." + ToLower(v) + "." + ToLower(g) + ".yaml"
  {
    ToLowerAppend(k + "." + v + "." + g, ".yaml");
    ToLowerAppend(k + "." + v + ".", g);
    ToLowerAppend(k + "." + v, ".");
    ToLowerAppend(k + ".", v);
    ToLowerAppend(k, ".");
    assert ToLower(".yaml") == ".yaml";
    assert ToLower(".") == ".";
  }

  /** The type descriptor with every part lower-cased. */
  function Lowered(gvk: GroupVersionKind): GroupVersionKind
  {
    GroupVersionKind(ToLower(gvk.group), ToLower(gvk.version), ToLower(gvk.kind))
  }

  /** Reads a file name back as `kind.version.group.yaml`: the kind ends at the first dot,
      the version at the second, and the group is the rest (a group may hold dots). */
  function ParseFilename(f: string): Option<GroupVersionKind>
  {
    if |f| < 5 || f[|f| - 5..] != ".yaml" then None
    else
      var stem := f[..|f| - 5];
      var i := IndexOf(stem, '.');
      if i == |stem| then None
      else
        var rest := stem[i + 1..];
        var j := IndexOf(rest, '.');
        if j == |rest| then None
        else Some(GroupVersionKind(rest[j + 1..], rest[..j], stem[..i]))
  }

  /** A name made of a dot-free kind, a dot-free version and a group parses back into them. */
  lemma ParseJoined(k: string, v: string, g: string)
    requires '.' !in k && '.' !in v
    ensures ParseFilename(k + "." + v + "." + g + ".yaml") == Some(GroupVersionKind(g, v, k))
  {
    var stem := k + "." + v + "." + g;
    var f := stem + ".yaml";
    assert f[..|f| - 5] == stem && f[|f| - 5..] == ".yaml";
    assert stem == k + ['.'] + (v + "." + g);
    IndexOfAfter(k, '.', v + "." + g);
    var rest := stem[|k| + 1..];
    assert rest == v + ['.'] + g;
    IndexOfAfter(v, '.', g);
    assert stem[..|k|] == k;
    assert rest[..|v|] == v && rest[|v| + 1..] == g;
  }

  /** Lower-casing never makes or removes a dot. */
  lemma LowerKeepsDots(s: string)
    requires '.' !in s
    ensures '.' !in ToLower(s)
  {
    var t := ToLower(s);
    forall i | 0 <= i < |t| ensures t[i] != '.' {
      assert s[i] != '.';
    }
  }

  /** A kind and a version never hold a dot; then the file name gives the type back, lower-cased. */
  lemma FilenameParsesBack(gvk: GroupVersionKind)
    requires '.' !in gvk.kind && '.' !in gvk.version
    ensures ParseFilename(ResourceFilename(gvk)) == Some(Lowered(gvk))
  {
    LowerKeepsDots(gvk.kind);
    LowerKeepsDots(gvk.version);
    ParseJoined(ToLower(gvk.kind), ToLower(gvk.version), ToLower(gvk.group));
  }

  /** A string splits around any of its dots. */
  lemma SplitAtDot(s: string, i: nat)
    requires i < |s| && s[i] == '.'
    ensures s == s[..i] + "." + s[i + 1..]
  {
  }

  /** A name ending in `.yaml` with two dots before it is the parts around them put back together. */
  lemma Reassemble(f: string, i: nat, j: nat)
    requires |f| >= 5 && f[|f| - 5..] == ".yaml"
    requires i < |f| - 5 && f[i] == '.'
    requires j < |f| - 5 - (i + 1) && f[i + 1 + j] == '.'
    ensures var stem := f[..|f| - 5]; var rest := stem[i + 1..];
      f == stem[..i] + "." + rest[..j] + "." + rest[j + 1..] + ".yaml"
  {
    var stem := f[..|f| - 5];
    var rest := stem[i + 1..];
    SplitAtDot(stem, i);
    SplitAtDot(rest, j);
    assert f == stem + f[|f| - 5..];
  }

  /** The file name of a type is the lower-cased formatted name. */
  lemma FormattedName(gvk: GroupVersionKind, e: string)
    requires e == gvk.kind + "." + gvk.version + "." + gvk.group + ".yaml"
    ensures ResourceFilename(gvk) == ToLower(e)
  {
  }

  /** Whatever name parses, formatting the parsed type gives the name back, lower-cased. */
  lemma FilenameFormatsBack(f: string)
    requires ParseFilename(f).Some?
    ensures ResourceFilename(ParseFilename(f).value) == ToLower(f)
  {
    var stem := f[..|f| - 5];
    var i := IndexOf(stem, '.');
    var rest := stem[i + 1..];
    var j := IndexOf(rest, '.');
    Reassemble(f, i, j);
    FormattedName(GroupVersionKind(rest[j + 1..], rest[..j], stem[..i]), f);
  }

  /** For dot-free kinds and versions, two types share a file exactly when they agree up to case. */
  lemma SameFileIffSameType(a: GroupVersionKind, b: GroupVersionKind)
    requires '.' !in a.kind && '.' !in a.version
    requires '.' !in b.kind && '.' !in b.version
    ensures ResourceFilename(a) == ResourceFilename(b) <==> Lowered(a) == Lowered(b)
  {
    FilenameParsesBack(a);
    FilenameParsesBack(b);
  }

  /** A ConfigMap of the core group (group "", version v1) is tracked in `configmap.v1..yaml`. */
  lemma CoreGroupFilename()
    ensures ResourceFilename(GroupVersionKind("", "v1", "ConfigMap")) == "configmap.v1..yaml"
  {
    CoreGroupFilenameOf(GroupVersionKind("", "v1", "ConfigMap"));
  }

  lemma CoreGroupFilenameOf(gvk: GroupVersionKind)
    requires gvk == GroupVersionKind("", "v1", "ConfigMap")
    ensures ResourceFilename(gvk) == "configmap.v1..yaml"
  {
    KindLowered(gvk.kind);
    VersionLowered(gvk.version);
    JoinedName(ResourceFilename(gvk), ToLower(gvk.kind), ToLower(gvk.version), ToLower(gvk.group));
  }

  lemma KindLowered(s: string)
    requires s == "ConfigMap"
    ensures ToLower(s) == "configmap"
  {
    var k := ToLower(s);
    forall i | 0 <= i < |s| ensures k[i] == "configmap"[i] {
      if i == 0 || i == 6 { assert IsUpper(s[i]); } else { assert !IsUpper(s[i]); }
    }
  }

  lemma VersionLowered(s: string)
    requires s == "v1"
    ensures ToLower(s) == "v1"
  {
    var v := ToLower(s);
    forall i | 0 <= i < |s| ensures v[i] == s[i] {
      assert !IsUpper(s[i]);
    }
  }

  lemma JoinedName(f: string, k: string, v: string, g: string)
    requires k == "configmap" && v == "v1" && g == ""
    requires f == k + "." + v + "." + g + ".yaml"
    ensures f == "configmap.v1..yaml"
  {
  }

  // ---- Go's %q on a string (strconv.Quote) ----

  const HEX_DIGITS := "0123456789abcdef"

  /** A character `%q` writes as it is. */
  predicate IsPlain(c: char)
  {
    c != '"' && c != '\\' && c as int >= 0x20 && c as int != 0x7F
  }

  /** The one-letter escapes: from the character to its letter. */
  function ShortEscape(c: char): Option<char>
  {
    if c == 7 as char then Some('a')
    else if c == 8 as char then Some('b')
    else if c == 12 as char then Some('f')
    else if c == '\n' then Some('n')
    else if c == '\r' then Some('r')
    else if c == '\t' then Some('t')
    else if c == 11 as char then Some('v')
    else None
  }

  /** The one-letter escapes: from the letter back to its character. */
  function ShortUnescape(e: char): Option<char>
  {
    if e == 'a' then Some(7 as char)
    else if e == 'b' then Some(8 as char)
    else if e == 'f' then Some(12 as char)
    else if e == 'n' then Some('\n')
    else if e == 'r' then Some('\r')
    else if e == 't' then Some('\t')
    else if e == 'v' then Some(11 as char)
    else None
  }

  /** How `%q` writes one character inside the quotes. */
  function EscapeChar(c: char): (e: string)
    ensures e == [c] <==> IsPlain(c)
    ensures e != [c] ==> |e| >= 2 && e[0] == '\\'
  {
    if c == '"' || c == '\\' then ['\\', c]
    else if ShortEscape(c).Some? then ['\\', ShortEscape(c).value]
    else if c as int < 0x20 || c as int == 0x7F then
      ['\\', 'x', HEX_DIGITS[c as int / 16], HEX_DIGITS[c as int % 16]]
    else [c]
  }

  function Escape(s: string): string
  {
    if s == [] then [] else EscapeChar(s[0]) + Escape(s[1..])
  }

  /** `fmt.Sprintf("%q", s)`: the escaped string between double quotes. */
  function Quote(s: string): (q: string)
    ensures |q| >= 2 && q[0] == '"' && q[|q| - 1] == '"'
  {
    "\"" + Escape(s) + "\""
  }

  function HexValue(d: char): Option<nat>
  {
    if '0' <= d <= '9' then Some(d as int - '0' as int)
    else if 'a' <= d <= 'f' then Some(d as int - 'a' as int + 10)
    else None
  }

  function Prepend(c: char, r: Option<string>): Option<string>
  {
    if r.None? then None else Some([c] + r.value)
  }

  /** Reads escapes back; an unescaped double quote or an unknown escape is an error. */
  function Unescape(t: string): Option<string>
    decreases |t|
  {
    if t == [] then Some([])
    else if t[0] == '"' then None
    else if t[0] != '\\' then Prepend(t[0], Unescape(t[1..]))
    else if |t| < 2 then None
    else if t[1] == '"' || t[1] == '\\' then Prepend(t[1], Unescape(t[2..]))
    else if ShortUnescape(t[1]).Some? then Prepend(ShortUnescape(t[1]).value, Unescape(t[2..]))
    else if t[1] == 'x' && |t| >= 4 && HexValue(t[2]).Some? && HexValue(t[3]).Some? then
      Prepend((16 * HexValue(t[2]).value + HexValue(t[3]).value) as char, Unescape(t[4..]))
    else None
  }

  /** The inverse of `Quote`: strips the quotes and reads the escapes back. */
  function Unquote(q: string): Option<string>
  {
    if |q| < 2 || q[0] != '"' || q[|q| - 1] != '"' then None
    else Unescape(q[1..|q| - 1])
  }

  lemma HexDigitValue(n: nat)
    requires n < 16
    ensures HexValue(HEX_DIGITS[n]) == Some(n)
  {
  }

  lemma UnescapeEscapeChar(c: char, t: string)
    ensures Unescape(EscapeChar(c) + t) == Prepend(c, Unescape(t))
  {
    var s := EscapeChar(c) + t;
    if c == '"' || c == '\\' {
      assert s[2..] == t;
    } else if ShortEscape(c).Some? {
      assert s[2..] == t;
    } else if c as int < 0x20 || c as int == 0x7F {
      var hi, lo := c as int / 16, c as int % 16;
      HexDigitValue(hi);
      HexDigitValue(lo);
      assert s[2] == HEX_DIGITS[hi] && s[3] == HEX_DIGITS[lo];
      assert s[4..] == t;
      assert (16 * hi + lo) as char == c;
    } else {
      assert s[1..] == t;
    }
  }

  lemma {:induction false} UnescapeEscape(s: string)
    ensures Unescape(Escape(s)) == Some(s)
  {
    if s != [] {
      UnescapeEscapeChar(s[0], Escape(s[1..]));
      UnescapeEscape(s[1..]);
      assert [s[0]] + s[1..] == s;
    }
  }

  /** Quoting loses nothing: unquoting gives the string back. */
  lemma UnquoteQuote(s: string)
    ensures Unquote(Quote(s)) == Some(s)
  {
    var q := Quote(s);
    assert q[1..|q| - 1] == Escape(s);
    UnescapeEscape(s);
  }

  lemma {:induction false} EscapePlain(s: string)
    requires forall i :: 0 <= i < |s| ==> IsPlain(s[i])
    ensures Escape(s) == s
  {
    if s != [] {
      EscapePlain(s[1..]);
      assert [s[0]] + s[1..] == s;
    }
  }

  /** A name with no quote, backslash or control character is quoted by surrounding it with quotes. */
  lemma QuotePlain(s: string)
    requires forall i :: 0 <= i < |s| ==> IsPlain(s[i])
    ensures Quote(s) == "\"" + s + "\""
  {
    EscapePlain(s);
  }
}
