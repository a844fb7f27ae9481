/** The Python `str` operations the credential verifier applies to the token and
    to the issuer DID: `startswith`, `replace`, `split`/`join` (the reference
    meaning of `replace`), `rsplit(sep, 1)` and `encode('utf-8')`. */
module PyStr {

  import opened Results

  /** `s.startswith(p)` */
  predicate StartsWith(s: string, p: string) {
    |p| <= |s| && s[..|p|] == p
  }

  /** `p` occurs in `s` at index `i`. */
  predicate OccursAt(s: string, p: string, i: int) {
    0 <= i && i + |p| <= |s| && s[i..i + |p|] == p
  }

  /** Python's `p in s` for strings. */
  ghost predicate Occurs(s: string, p: string) {
    exists i :: OccursAt(s, p, i)
  }

  /** `s.replace(pat, rep)`: the occurrences of `pat`, found left to right and
      without overlap, are each replaced by `rep`. Python also allows an empty
      `pat`; the verifier only ever replaces a non-empty constant. */
  function ReplaceAll(s: string, pat: string, rep: string): string
    requires pat != []
    decreases |s|
  {
    if |s| < |pat| then s
    else if s[..|pat|] == pat then rep + ReplaceAll(s[|pat|..], pat, rep)
    else [s[0]] + ReplaceAll(s[1..], pat, rep)
  }

  /** `s.split(sep)`: the pieces of `s` between the occurrences of `sep`,
      found left to right and without overlap. */
  function Split(s: string, sep: string): (pieces: seq<string>)
    requires sep != []
    ensures |pieces| >= 1
    decreases |s|
  {
    if |s| < |sep| then [s]
    else if s[..|sep|] == sep then [""] + Split(s[|sep|..], sep)
    else
      var rest := Split(s[1..], sep);
      [[s[0]] + rest[0]] + rest[1..]
  }

  /** `sep.join(pieces)` */
  function Join(sep: string, pieces: seq<string>): string
    decreases |pieces|
  {
    if |pieces| == 0 then ""
    else if |pieces| == 1 then pieces[0]
    else pieces[0] + sep + Join(sep, pieces[1..])
  }

  /** Prepending text to the first piece prepends it to the joined string. */
  lemma JoinPrepend(sep: string, x: string, pieces: seq<string>)
    requires |pieces| >= 1
    ensures Join(sep, [x + pieces[0]] + pieces[1..]) == x + Join(sep, pieces)
  {
    var ps := [x + pieces[0]] + pieces[1..];
    if |pieces| > 1 {
      assert ps[1..] == pieces[1..];
    }
  }

  /** Splitting at `sep` and joining again with `sep` gives back the string. */
  lemma {:induction false} SplitJoin(s: string, sep: string)
    requires sep != []
    ensures Join(sep, Split(s, sep)) == s
    decreases |s|
  {
    if |s| < |sep| {
    } else if s[..|sep|] == sep {
      var rest := Split(s[|sep|..], sep);
      SplitJoin(s[|sep|..], sep);
      assert ([""] + rest)[1..] == rest;
      assert s == s[..|sep|] + s[|sep|..];
    } else {
      var rest := Split(s[1..], sep);
      SplitJoin(s[1..], sep);
      JoinPrepend(sep, [s[0]], rest);
      assert s == [s[0]] + s[1..];
    }
  }

  /** The first piece of a split is a prefix of the string. */
  lemma {:induction false} SplitFirstIsPrefix(s: string, sep: string)
    requires sep != []
    ensures Split(s, sep)[0] <= s
    decreases |s|
  {
    if |s| < |sep| {
    } else if s[..|sep|] == sep {
    } else {
      SplitFirstIsPrefix(s[1..], sep);
    }
  }

  /** A character followed by separator-free text holds no separator, when
      the two begin a string that does not start with one. */
  lemma ConsFree(s: string, c: char, q: string, sep: string)
    requires sep != [] && !Occurs(q, sep)
    requires [c] + q <= s && !StartsWith(s, sep)
    ensures !Occurs([c] + q, sep)
  {
    var first := [c] + q;
    forall i | 0 < i ensures !OccursAt(first, sep, i) {
      if i + |sep| <= |first| {
        assert first[i..i + |sep|] == q[i - 1..i - 1 + |sep|];
        assert !OccursAt(q, sep, i - 1);
      }
    }
    if |sep| <= |first| {
      assert first[..|sep|] == s[..|sep|];
    }
    assert !OccursAt(first, sep, 0);
  }

  /** No piece of a split contains the separator: every occurrence was cut out. */
  lemma {:induction false} SplitPiecesFree(s: string, sep: string)
    requires sep != []
    ensures forall k :: 0 <= k < |Split(s, sep)| ==> !Occurs(Split(s, sep)[k], sep)
    decreases |s|
  {
    var pieces := Split(s, sep);
    if |s| < |sep| {
      assert pieces == [s];
    } else if s[..|sep|] == sep {
      var rest := Split(s[|sep|..], sep);
      SplitPiecesFree(s[|sep|..], sep);
      assert pieces[1..] == rest;
    } else {
      var rest := Split(s[1..], sep);
      SplitPiecesFree(s[1..], sep);
      SplitFirstIsPrefix(s[1..], sep);
      assert [s[0]] + rest[0] <= s;
      ConsFree(s, s[0], rest[0], sep);
      assert pieces[1..] == rest[1..];
    }
  }

  /** `s.replace(pat, rep)` is `rep.join(s.split(pat))`. */
  lemma {:induction false} ReplaceIsJoinOfSplit(s: string, pat: string, rep: string)
    requires pat != []
    ensures ReplaceAll(s, pat, rep) == Join(rep, Split(s, pat))
    decreases |s|
  {
    if |s| < |pat| {
    } else if s[..|pat|] == pat {
      var rest := Split(s[|pat|..], pat);
      ReplaceIsJoinOfSplit(s[|pat|..], pat, rep);
      assert ([""] + rest)[1..] == rest;
    } else {
      ReplaceIsJoinOfSplit(s[1..], pat, rep);
      JoinPrepend(rep, [s[0]], Split(s[1..], pat));
    }
  }

  /** Replacing a pattern that does not occur leaves the string as it is. */
  lemma {:induction false} ReplaceAbsent(s: string, pat: string, rep: string)
    requires pat != [] && !Occurs(s, pat)
    ensures ReplaceAll(s, pat, rep) == s
    decreases |s|
  {
    if |s| < |pat| {
    } else {
      assert !OccursAt(s, pat, 0);
      forall i | OccursAt(s[1..], pat, i) ensures false {
        assert s[1..][i..i + |pat|] == s[i + 1..i + 1 + |pat|];
        assert OccursAt(s, pat, i + 1);
      }
      ReplaceAbsent(s[1..], pat, rep);
      assert s == [s[0]] + s[1..];
    }
  }

  /** A string that starts with the pattern has that occurrence replaced first. */
  lemma ReplaceLeadingPattern(pat: string, rest: string, rep: string)
    requires pat != []
    ensures ReplaceAll(pat + rest, pat, rep) == rep + ReplaceAll(rest, pat, rep)
  {
    assert (pat + rest)[..|pat|] == pat;
    assert (pat + rest)[|pat|..] == rest;
  }

  /** Text that holds no first character of the pattern is copied unchanged,
      and replacing goes on after it. */
  lemma {:induction false} ReplaceSkipsPlainText(plain: string, rest: string, pat: string, rep: string)
    requires pat != [] && pat[0] !in plain
    ensures ReplaceAll(plain + rest, pat, rep) == plain + ReplaceAll(rest, pat, rep)
    decreases |plain|
  {
    if |plain| > 0 {
      var s := plain + rest;
      assert s[0] == plain[0];
      assert s[1..] == plain[1..] + rest;
      ReplaceSkipsPlainText(plain[1..], rest, pat, rep);
      if |s| >= |pat| {
        assert s[..|pat|][0] != pat[0];
        assert ReplaceAll(s, pat, rep) == [plain[0]] + ReplaceAll(plain[1..] + rest, pat, rep);
      } else {
        assert ReplaceAll(rest, pat, rep) == rest;
        assert ReplaceAll(s, pat, rep) == s;
      }
      assert plain == [plain[0]] + plain[1..];
    } else {
      assert plain + rest == rest;
    }
  }

  /** A pattern holding a character that the string lacks does not occur in it. */
  lemma AbsentCharExcludesPattern(s: string, pat: string, c: char)
    requires c in pat && c !in s
    ensures !Occurs(s, pat)
  {
    forall i | 0 <= i ensures !OccursAt(s, pat, i) {
      if i + |pat| <= |s| {
        assert c !in s[i..i + |pat|];
      }
    }
  }

  /** `s.rfind(c)`: the index of the last `c` in `s`, or -1 if there is none. */
  function RFind(s: string, c: char): (i: int)
    ensures -1 <= i < |s|
    ensures i >= 0 ==> s[i] == c
    ensures forall j :: i < j < |s| ==> s[j] != c
    decreases |s|
  {
    if |s| == 0 then -1
    else if s[|s| - 1] == c then |s| - 1
    else RFind(s[..|s| - 1], c)
  }

  /** `s.rsplit(sep, 1)` for a one-character separator: the one-element list
      `[s]` when `sep` does not occur, otherwise the text before and the text
      after the last `sep`. */
  function RSplitOnce(s: string, sep: char): (parts: seq<string>)
    ensures |parts| == 1 || |parts| == 2
    ensures |parts| == 2 <==> sep in s
    ensures |parts| == 1 ==> parts[0] == s
    ensures |parts| == 2 ==> s == parts[0] + [sep] + parts[1] && sep !in parts[1]
  {
    var i := RFind(s, sep);
    if i < 0 then [s]
    else
      assert s == s[..i] + [sep] + s[i + 1..];
      [s[..i], s[i + 1..]]
  }

  /** The split at the last separator is the only split whose right-hand part
      holds no separator. */
  lemma RSplitOnceUnique(s: string, sep: char, before: string, after: string)
    requires s == before + [sep] + after && sep !in after
    ensures RSplitOnce(s, sep) == [before, after]
  {
    var i := RFind(s, sep);
    assert s[|before|] == sep;
    assert i == |before|;
    assert s[..i] == before;
    assert s[i + 1..] == after;
  }

  /** Bytes, as Python's `bytes` holds them. */
  newtype byte = x: int | 0 <= x < 256

  /** The UTF-8 encoding of one Unicode scalar value (section 3 of RFC 3629). */
  function Utf8Char(c: char): (bs: seq<byte>)
    ensures 1 <= |bs| <= 4
  {
    var n := c as int;
    var n1 := n / 64;
    var n2 := n1 / 64;
    if n < 0x80 then [n as byte]
    else if n < 0x800 then [(0xC0 + n1) as byte, (0x80 + n % 64) as byte]
    else if n < 0x10000 then
      [(0xE0 + n2) as byte, (0x80 + n1 % 64) as byte, (0x80 + n % 64) as byte]
    else
      [(0xF0 + n2 / 64) as byte, (0x80 + n2 % 64) as byte,
       (0x80 + n1 % 64) as byte, (0x80 + n % 64) as byte]
  }

  /** `s.encode('utf-8')` */
  function Utf8Encode(s: string): seq<byte>
    decreases |s|
  {
    if |s| == 0 then [] else Utf8Char(s[0]) + Utf8Encode(s[1..])
  }

  /** The number of bytes a UTF-8 sequence starting with `lead` has, or 0 if
      `lead` cannot start one. */
  function Utf8Length(lead: byte): nat {
    if lead < 0x80 then 1
    else if 0xC0 <= lead < 0xE0 then 2
    else if 0xE0 <= lead < 0xF0 then 3
    else if 0xF0 <= lead < 0xF8 then 4
    else 0
  }

  /** The code point that a UTF-8 sequence of the length its lead byte gives stands for. */
  function Utf8Value(bs: seq<byte>): int
    requires |bs| >= 1 && |bs| == Utf8Length(bs[0])
  {
    if |bs| == 1 then bs[0] as int
    else if |bs| == 2 then (bs[0] as int - 0xC0) * 64 + (bs[1] as int - 0x80)
    else if |bs| == 3 then
      (bs[0] as int - 0xE0) * 4096 + (bs[1] as int - 0x80) * 64 + (bs[2] as int - 0x80)
    else
      (bs[0] as int - 0xF0) * 262144 + (bs[1] as int - 0x80) * 4096
        + (bs[2] as int - 0x80) * 64 + (bs[3] as int - 0x80)
  }

  /** Decodes UTF-8 into code points; None when a lead byte is invalid or a
      sequence is cut short. */
  function Utf8Decode(bs: seq<byte>): Option<seq<int>>
    decreases |bs|
  {
    if |bs| == 0 then Some([])
    else
      var n := Utf8Length(bs[0]);
      if n == 0 || n > |bs| then None
      else match Utf8Decode(bs[n..])
        case None => None
        case Some(rest) => Some([Utf8Value(bs[..n])] + rest)
  }

  /** The code points of a string. */
  function CodePoints(s: string): (cps: seq<int>)
    ensures |cps| == |s|
    ensures forall i :: 0 <= i < |s| ==> cps[i] == s[i] as int
  {
    seq(|s|, i requires 0 <= i < |s| => s[i] as int)
  }

  /** One character's encoding announces its own length and decodes back to it. */
  lemma Utf8CharRoundTrip(c: char)
    ensures |Utf8Char(c)| == Utf8Length(Utf8Char(c)[0])
    ensures Utf8Value(Utf8Char(c)) == c as int
  {
    var n := c as int;
    var n1 := n / 64;
    var n2 := n1 / 64;
    assert n == 64 * n1 + n % 64;
    assert n1 == 64 * n2 + n1 % 64;
    assert n2 == 64 * (n2 / 64) + n2 % 64;
  }

  /** Decoding the UTF-8 encoding of a string gives back its code points, so
      two different strings never encode to the same bytes. */
  lemma {:induction false} Utf8RoundTrip(s: string)
    ensures Utf8Decode(Utf8Encode(s)) == Some(CodePoints(s))
    decreases |s|
  {
    if |s| > 0 {
      var head := Utf8Char(s[0]);
      var bs := Utf8Encode(s);
      Utf8CharRoundTrip(s[0]);
      Utf8RoundTrip(s[1..]);
      assert bs[..|head|] == head;
      assert bs[|head|..] == Utf8Encode(s[1..]);
      assert CodePoints(s) == [s[0] as int] + CodePoints(s[1..]);
    }
  }

  /** For an ASCII string, such as a compact JWS, the UTF-8 bytes are the
      characters' codes one for one. */
  lemma {:induction false} Utf8Ascii(s: string)
    requires forall i :: 0 <= i < |s| ==> s[i] as int < 0x80
    ensures |Utf8Encode(s)| == |s|
    ensures forall i :: 0 <= i < |s| ==> Utf8Encode(s)[i] as int == s[i] as int
    decreases |s|
  {
    if |s| > 0 {
      Utf8Ascii(s[1..]);
    }
  }
}
