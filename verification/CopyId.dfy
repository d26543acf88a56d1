/** Appending a public key to an `authorized_keys` file, after src/copy_id.rs (without the erase option). */
module CopyId {
  import opened Wire
  import opened Keys
  import opened Sequences

  const NEWLINE: byte := 10
  const SPACE: byte := 32

  // ------------------------------------------------------------ base64

  /** The character for six bits: A-Z a-z 0-9 + /. */
  function Sextet(n: nat): (c: byte)
    requires n < 64
    ensures c != NEWLINE && c != SPACE
  {
    if n < 26 then 65 + n else if n < 52 then 71 + n else if n < 62 then n - 4 else if n == 62 then 43 else 47
  }

  function Quad(x: byte, y: byte, z: byte): (t: Bytes)
    ensures |t| == 4 && NEWLINE !in t
  {
    [Sextet(x / 4), Sextet(x % 4 * 16 + y / 16), Sextet(y % 16 * 4 + z / 64), Sextet(z % 64)]
  }

  /** Standard base64 with padding (section 4 of RFC 4648). */
  function Base64(b: Bytes): (t: Bytes)
    ensures NEWLINE !in t
  {
    if |b| == 0 then []
    else if |b| == 1 then
      [Sextet(b[0] / 4), Sextet(b[0] % 4 * 16), 61, 61]
    else if |b| == 2 then
      [Sextet(b[0] / 4), Sextet(b[0] % 4 * 16 + b[1] / 16), Sextet(b[1] % 16 * 4), 61]
    else Quad(b[0], b[1], b[2]) + Base64(b[3..])
  }

  function Unsextet(c: byte): nat {
    if 65 <= c <= 90 then c - 65 else if 97 <= c <= 122 then c - 71 else if 48 <= c <= 57 then c + 4
    else if c == 43 then 62 else 63
  }

  const PAD: byte := 61

  function FromQuad(t: Bytes): Bytes
    requires |t| == 4
  {
    var a, b := Unsextet(t[0]), Unsextet(t[1]);
    var first := [(a * 4 + b / 16) % 0x100];
    if t[2] == PAD then first
    else
      var c := Unsextet(t[2]);
      var second := [(b % 16 * 16 + c / 4) % 0x100];
      if t[3] == PAD then first + second
      else first + second + [(c % 4 * 64 + Unsextet(t[3])) % 0x100]
  }

  function FromBase64(t: Bytes): Bytes {
    if |t| < 4 then [] else FromQuad(t[..4]) + FromBase64(t[4..])
  }

  lemma UnsextetSextet(n: nat)
    requires n < 64
    ensures Unsextet(Sextet(n)) == n && Sextet(n) != PAD
  {
  }

  lemma Regroup(x: byte, y: byte, z: byte)
    ensures var b, c := x % 4 * 16 + y / 16, y % 16 * 4 + z / 64;
            && b < 64 && c < 64
            && (x / 4 * 4 + b / 16) % 0x100 == x
            && (b % 16 * 16 + c / 4) % 0x100 == y
            && (c % 4 * 64 + z % 64) % 0x100 == z
  {
    var b, c := x % 4 * 16 + y / 16, y % 16 * 4 + z / 64;
    assert b / 16 == x % 4 && b % 16 == y / 16;
    assert c / 4 == y % 16 && c % 4 == z / 64;
  }

  lemma FromQuadQuad(x: byte, y: byte, z: byte)
    ensures FromQuad(Quad(x, y, z)) == [x, y, z]
  {
    hide Sextet, FromQuad;
    Regroup(x, y, z);
    QuadOfSextets(x / 4, x % 4 * 16 + y / 16, y % 16 * 4 + z / 64, z % 64);
  }

  lemma QuadOfThree(b: Bytes)
    requires |b| >= 3
    ensures |Base64(b)| >= 4 && FromQuad(Base64(b)[..4]) == b[..3]
  {
    hide *;
    FromQuadQuad(b[0], b[1], b[2]);
    FirstQuad(b);
    assert b[..3] == [b[0], b[1], b[2]];
  }

  lemma FirstQuad(b: Bytes)
    requires |b| >= 3
    ensures |Base64(b)| >= 4 && Base64(b)[..4] == Quad(b[0], b[1], b[2])
    ensures Base64(b)[4..] == Base64(b[3..])
  {
    hide Quad;
  }

  lemma QuadOfSextets(a: nat, b: nat, c: nat, d: nat)
    requires a < 64 && b < 64 && c < 64 && d < 64
    ensures FromQuad([Sextet(a), Sextet(b), Sextet(c), Sextet(d)])
            == [(a * 4 + b / 16) % 0x100, (b % 16 * 16 + c / 4) % 0x100, (c % 4 * 64 + d) % 0x100]
  {
    hide Sextet, Unsextet;
    UnsextetSextet(a);
    UnsextetSextet(b);
    UnsextetSextet(c);
    UnsextetSextet(d);
  }

  lemma PaddedSextets(a: nat, b: nat, c: nat)
    requires a < 64 && b < 64 && c < 64
    ensures FromQuad([Sextet(a), Sextet(b), PAD, PAD]) == [(a * 4 + b / 16) % 0x100]
    ensures FromQuad([Sextet(a), Sextet(b), Sextet(c), PAD])
            == [(a * 4 + b / 16) % 0x100, (b % 16 * 16 + c / 4) % 0x100]
  {
    hide Sextet, Unsextet;
    UnsextetSextet(a);
    UnsextetSextet(b);
    UnsextetSextet(c);
  }

  lemma QuadOfFewer(b: Bytes)
    requires 1 <= |b| <= 2
    ensures |Base64(b)| == 4 && FromQuad(Base64(b)) == b
  {
    hide Sextet, FromQuad;
    var x, y: byte := b[0], if |b| == 2 then b[1] else 0;
    Regroup(x, y, 0);
    PaddedSextets(x / 4, x % 4 * 16 + y / 16, y % 16 * 4);
    if |b| == 1 {
      assert b == [x];
    } else {
      assert b == [x, y];
    }
  }

  /** The alphabet of section 4 of RFC 4648. */
  lemma SextetAlphabet(n: nat)
    requires n < 64
    ensures n < 26 ==> Sextet(n) == 'A' as int + n
    ensures 26 <= n < 52 ==> Sextet(n) == 'a' as int + (n - 26)
    ensures 52 <= n < 62 ==> Sextet(n) == '0' as int + (n - 52)
    ensures Sextet(62) == '+' as int && Sextet(63) == '/' as int && PAD == '=' as int
  {
  }

  lemma ShortVectors()
    ensures Base64(Ascii("f")) == Ascii("Zg==")
    ensures Base64(Ascii("fo")) == Ascii("Zm8=")
  {
  }

  lemma OtherShortVectors()
    ensures Base64(Ascii("b")) == Ascii("Yg==")
    ensures Base64(Ascii("ba")) == Ascii("YmE=")
  {
  }

  lemma TripleVectors()
    ensures Quad('f' as int, 'o' as int, 'o' as int) == Ascii("Zm9v")
    ensures Quad('b' as int, 'a' as int, 'r' as int) == Ascii("YmFy")
  {
  }

  lemma EmptyVector()
    ensures Base64([]) == [] && Ascii("") == []
  {
  }

  lemma BarVector()
    ensures Base64(Ascii("bar")) == Ascii("YmFy")
  {
    TripleVectors();
    var b := Ascii("bar");
    assert b == ['b' as int, 'a' as int, 'r' as int];
    hide Ascii, Quad;
    assert b[3..] == [] && Base64([]) == [];
    Unit(Quad('b' as int, 'a' as int, 'r' as int));
  }

  lemma FooAnd(tail: Bytes)
    ensures Base64(Ascii("foo") + tail) == Ascii("Zm9v") + Base64(tail)
  {
    TripleVectors();
    var b := Ascii("foo") + tail;
    assert b[0] == 'f' as int && b[1] == 'o' as int && b[2] == 'o' as int && b[3..] == tail;
    hide Quad, Ascii;
  }

  /** The test vectors of section 10 of RFC 4648. */
  lemma TestVectors()
    ensures Base64(Ascii("")) == Ascii("")
    ensures Base64(Ascii("f")) == Ascii("Zg==")
    ensures Base64(Ascii("fo")) == Ascii("Zm8=")
    ensures Base64(Ascii("foo")) == Ascii("Zm9v")
    ensures Base64(Ascii("foo") + Ascii("b")) == Ascii("Zm9v") + Ascii("Yg==")
    ensures Base64(Ascii("foo") + Ascii("ba")) == Ascii("Zm9v") + Ascii("YmE=")
    ensures Base64(Ascii("foo") + Ascii("bar")) == Ascii("Zm9v") + Ascii("YmFy")
  {
    hide Base64, Ascii, Quad;
    EmptyVector();
    ShortVectors();
    OtherShortVectors();
    BarVector();
    FooAnd([]);
    FooAnd(Ascii("b"));
    FooAnd(Ascii("ba"));
    FooAnd(Ascii("bar"));
    Unit(Ascii("foo"));
    Unit(Ascii("Zm9v"));
  }

  /** Base64 loses nothing: different blobs have different texts. */
  lemma {:induction false} FromBase64Base64(b: Bytes)
    ensures FromBase64(Base64(b)) == b
  {
    if |b| >= 3 {
      QuadOfThree(b);
      FromBase64Base64(b[3..]);
      FirstQuad(b);
      hide FromQuad, Base64, Quad;
      assert b == b[..3] + b[3..];
    } else if |b| > 0 {
      QuadOfFewer(b);
      hide FromQuad, Base64;
      assert Base64(b)[..4] == Base64(b) && Base64(b)[4..] == [];
      Unit(b);
    }
  }

  // ------------------------------------------------------------ text

  predicate OccursAt(s: Bytes, t: Bytes, i: nat) {
    i + |t| <= |s| && s[i..i + |t|] == t
  }

  predicate Contains(s: Bytes, t: Bytes) {
    exists i :: 0 <= i <= |s| && OccursAt(s, t, i)
  }

  method Search(s: Bytes, t: Bytes) returns (found: bool)
    ensures found == Contains(s, t)
  {
    for i := 0 to |s| + 1
      invariant forall j :: 0 <= j < i ==> !OccursAt(s, t, j)
    {
      if OccursAt(s, t, i) {
        return true;
      }
    }
    return false;
  }

  /** The lines of a text; a last line without a newline counts as a line. `open` is the line begun so far. */
  function LinesFrom(open: Bytes, s: Bytes): seq<Bytes>
    decreases |s|
  {
    if s == [] then (if open == [] then [] else [open])
    else if s[0] == NEWLINE then [open] + LinesFrom([], s[1..])
    else LinesFrom(open + [s[0]], s[1..])
  }

  function Lines(s: Bytes): seq<Bytes> {
    LinesFrom([], s)
  }

  predicate Terminated(s: Bytes) {
    s == [] || s[|s| - 1] == NEWLINE
  }

  lemma {:induction false} LinesFromAppend(open: Bytes, s: Bytes, t: Bytes)
    requires s != [] && s[|s| - 1] == NEWLINE
    ensures LinesFrom(open, s + t) == LinesFrom(open, s) + Lines(t)
    decreases |s|
  {
    assert (s + t)[1..] == s[1..] + t;
    if |s| == 1 {
      assert s[1..] == [] && [] + t == t;
    } else if s[0] == NEWLINE {
      LinesFromAppend([], s[1..], t);
      assert [open] + (LinesFrom([], s[1..]) + Lines(t)) == [open] + LinesFrom([], s[1..]) + Lines(t);
    } else {
      LinesFromAppend(open + [s[0]], s[1..], t);
    }
  }

  lemma {:induction false} ClosingNewline(open: Bytes, s: Bytes)
    requires if s == [] then open != [] else s[|s| - 1] != NEWLINE
    ensures LinesFrom(open, s + [NEWLINE]) == LinesFrom(open, s)
    decreases |s|
  {
    if s == [] {
      assert s + [NEWLINE] == [NEWLINE];
      assert [NEWLINE][1..] == [];
    } else {
      assert (s + [NEWLINE])[1..] == s[1..] + [NEWLINE];
      if s[0] == NEWLINE {
        ClosingNewline([], s[1..]);
      } else {
        ClosingNewline(open + [s[0]], s[1..]);
      }
    }
  }

  lemma {:induction false} OneLineFrom(open: Bytes, s: Bytes)
    requires NEWLINE !in s
    ensures LinesFrom(open, s + [NEWLINE]) == [open + s]
    decreases |s|
  {
    if s == [] {
      assert s + [NEWLINE] == [NEWLINE];
      assert [NEWLINE][1..] == [];
      assert open + s == open;
    } else {
      assert (s + [NEWLINE])[1..] == s[1..] + [NEWLINE];
      OneLineFrom(open + [s[0]], s[1..]);
      assert open + [s[0]] + s[1..] == open + s;
    }
  }

  function Newlines(s: Bytes): nat {
    if s == [] then 0 else (if s[0] == NEWLINE then 1 else 0) + Newlines(s[1..])
  }

  lemma {:induction false} LineCount(open: Bytes, s: Bytes)
    ensures |LinesFrom(open, s + [NEWLINE])| == 1 + Newlines(s)
    ensures Newlines(s) == 0 <==> NEWLINE !in s
    decreases |s|
  {
    if s == [] {
      assert s + [NEWLINE] == [NEWLINE];
      assert [NEWLINE][1..] == [];
    } else {
      assert (s + [NEWLINE])[1..] == s[1..] + [NEWLINE];
      assert s == [s[0]] + s[1..];
      LineCount(if s[0] == NEWLINE then [] else open + [s[0]], s[1..]);
    }
  }

  // ------------------------------------------------------------ the line

  function KeyLine(blob: Bytes, name: Bytes): Bytes {
    SSH_RSA + [SPACE] + Base64(blob) + [SPACE] + name
  }

  /** The form that sshd reads: the type, the key, and the name as a comment, with a space between. */
  lemma KeyLineForm(blob: Bytes, name: Bytes)
    ensures KeyLine(blob, name) == Ascii("ssh-rsa ") + Base64(blob) + Ascii(" ") + name
    ensures NEWLINE == '\n' as int
  {
    AlgorithmNames();
    hide Base64;
    assert Ascii("ssh-rsa ") == Ascii("ssh-rsa") + Ascii(" ") && Ascii(" ") == [SPACE];
  }

  // ------------------------------------------------------------ the append

  /** The file afterwards. */
  function WithKey(file: Bytes, blob: Bytes, name: Bytes): Bytes {
    if Contains(file, Base64(blob)) then file
    else file + (if Terminated(file) then [] else [NEWLINE]) + (KeyLine(blob, name) + [NEWLINE])
  }

  class RemoteFile {
    var bytes: Bytes

    method Append(b: Bytes)
      modifies this
      ensures bytes == old(bytes) + b
    {
      bytes := bytes + b;
    }
  }

  /** Reads the file as text, which fails unless it is UTF-8, and appends the key's line unless its base64 occurs. */
  method AppendKey(file: RemoteFile, pair: KeyPair) returns (ok: bool)
    requires pair.public.Encodable()
    modifies file
    ensures ok == ValidUtf8(old(file.bytes))
    ensures file.bytes == if ok then WithKey(old(file.bytes), Encode(pair.public), pair.name) else old(file.bytes)
  {
    var str := file.bytes;
    if !ValidUtf8(str) {
      return false;
    }
    hide ValidUtf8;
    var blob := EncodePublic(pair.public);
    var base64 := Base64(blob);
    var found := Search(str, base64);
    ok := true;
    if !found {
      if str != [] && str[|str| - 1] != NEWLINE {
        file.Append([NEWLINE]);
      }
      assert file.bytes == str + (if Terminated(str) then [] else [NEWLINE]);
      file.Append(SSH_RSA + [SPACE] + base64 + [SPACE] + pair.name + [NEWLINE]);
    }
  }

  lemma OccursInLine(before: Bytes, blob: Bytes, name: Bytes, after: Bytes)
    ensures Contains(before + KeyLine(blob, name) + after, Base64(blob))
  {
    var t := Base64(blob);
    var s := before + KeyLine(blob, name) + after;
    var i := |before| + |SSH_RSA| + 1;
    assert s == (before + SSH_RSA + [SPACE]) + t + ([SPACE] + name + after);
    assert OccursAt(s, t, i);
  }

  lemma {:induction false} LinesWithKey(file: Bytes, blob: Bytes, name: Bytes)
    requires !Contains(file, Base64(blob))
    ensures Lines(WithKey(file, blob, name)) == Lines(file) + Lines(KeyLine(blob, name) + [NEWLINE])
  {
    hide Base64, Contains;
    var line := KeyLine(blob, name) + [NEWLINE];
    if file == [] {
      assert WithKey(file, blob, name) == line && Lines(file) + Lines(line) == Lines(line);
    } else if Terminated(file) {
      assert WithKey(file, blob, name) == file + line;
      LinesFromAppend([], file, line);
    } else {
      var closed := file + [NEWLINE];
      assert WithKey(file, blob, name) == closed + line;
      ClosingNewline([], file);
      LinesFromAppend([], closed, line);
    }
  }

  /**
   The old lines survive in order; the key's base64 occurs afterwards; and doing it again changes nothing. A name
   without a newline adds at most one line, which names the key.
   */
  lemma AppendKeepsLines(file: Bytes, blob: Bytes, name: Bytes)
    ensures Lines(file) <= Lines(WithKey(file, blob, name))
    ensures Contains(WithKey(file, blob, name), Base64(blob))
    ensures WithKey(WithKey(file, blob, name), blob, name) == WithKey(file, blob, name)
    ensures NEWLINE !in name ==>
              Lines(WithKey(file, blob, name)) ==
              Lines(file) + (if Contains(file, Base64(blob)) then [] else [KeyLine(blob, name)])
  {
    hide Base64, Contains, KeyLine;
    if !Contains(file, Base64(blob)) {
      LinesWithKey(file, blob, name);
      var before := file + (if Terminated(file) then [] else [NEWLINE]);
      OccursInLine(before, blob, name, [NEWLINE]);
      Assoc(before, KeyLine(blob, name), [NEWLINE]);
      hide LinesFrom, Terminated;
      if NEWLINE !in name {
        OneLine(blob, name);
      }
    } else {
      Unit(Lines(file));
    }
  }

  lemma {:induction false} NewlinesConcat(s: Bytes, t: Bytes)
    ensures Newlines(s + t) == Newlines(s) + Newlines(t)
  {
    if s == [] {
      assert s + t == t;
    } else {
      assert (s + t)[1..] == s[1..] + t;
      NewlinesConcat(s[1..], t);
    }
  }

  lemma KeyLineNewlines(blob: Bytes, name: Bytes)
    ensures Newlines(KeyLine(blob, name)) == Newlines(name)
  {
    hide Base64;
    var before := SSH_RSA + [SPACE] + Base64(blob) + [SPACE];
    assert NEWLINE !in before;
    LineCount([], before);
    NewlinesConcat(before, name);
    hide Newlines;
    assert KeyLine(blob, name) == before + name;
  }

  /** A key that is added takes one line for each line of its name, so one exactly if the name has no newline. */
  lemma OneLineExactly(file: Bytes, blob: Bytes, name: Bytes)
    requires !Contains(file, Base64(blob))
    ensures |Lines(WithKey(file, blob, name))| == |Lines(file)| + 1 + Newlines(name)
    ensures |Lines(WithKey(file, blob, name))| == |Lines(file)| + 1 <==> NEWLINE !in name
  {
    LinesWithKey(file, blob, name);
    LineCount([], KeyLine(blob, name));
    KeyLineNewlines(blob, name);
    LineCount([], name);
    hide LinesFrom, Contains, Base64, WithKey, KeyLine, Newlines;
  }

  /** The name "a", newline, "b", which a client may send, adds two lines. */
  lemma TwoLinesExample(file: Bytes, blob: Bytes)
    requires !Contains(file, Base64(blob))
    ensures ValidUtf8([0x61, NEWLINE, 0x62])
    ensures |Lines(WithKey(file, blob, [0x61, NEWLINE, 0x62]))| == |Lines(file)| + 2
  {
    var name: Bytes := [0x61, NEWLINE, 0x62];
    OneLineExactly(file, blob, name);
    hide Contains, Base64, WithKey, Lines;
    assert name[1..] == [NEWLINE, 0x62] && name[1..][1..] == [0x62] && name[1..][1..][1..] == [];
    assert Newlines([0x62]) == 0 && ValidUtf8([0x62]);
  }

  lemma OneLine(blob: Bytes, name: Bytes)
    requires NEWLINE !in name
    ensures Lines(KeyLine(blob, name) + [NEWLINE]) == [KeyLine(blob, name)]
  {
    hide Base64, LinesFrom;
    OneLineFrom([], KeyLine(blob, name));
    Unit(KeyLine(blob, name));
  }
}
