/** Character encodings needed to explain the button's completion label:
    UTF-8 (RFC 3629, section 3) turns a character into bytes, and the
    Windows-1252 code page (as indexed by the WHATWG Encoding Standard)
    turns each byte back into one character. Reading UTF-8 bytes as
    Windows-1252 is the classic way an apostrophe becomes three characters. */
module TextEncoding {

  /** The UTF-8 bytes of one character. */
  function Utf8Char(c: char): (bytes: seq<nat>)
    ensures 1 <= |bytes| <= 4
    ensures forall i :: 0 <= i < |bytes| ==> bytes[i] < 256
    ensures (c as int < 0x80) <==> |bytes| == 1
  {
    var cp := c as int;
    if cp < 0x80 then [cp]
    else if cp < 0x800 then [0xC0 + cp / 64, 0x80 + cp % 64]
    else if cp < 0x10000 then [0xE0 + cp / 4096, 0x80 + (cp / 64) % 64, 0x80 + cp % 64]
    else [0xF0 + cp / 262144, 0x80 + (cp / 4096) % 64, 0x80 + (cp / 64) % 64, 0x80 + cp % 64]
  }

  /** The character Windows-1252 assigns to a byte. Bytes outside 0x80-0x9F
      stand for the code point of the same number; the five bytes the code
      page leaves unassigned stand for their C1 control character. */
  function Windows1252Char(b: nat): (c: char)
    requires b < 256
    ensures b < 0x80 ==> c as int == b
  {
    if b < 0x80 || b >= 0xA0 then b as char
    else
      [ '\U{20AC}', '\U{0081}', '\U{201A}', '\U{0192}', '\U{201E}', '\U{2026}', '\U{2020}', '\U{2021}',
        '\U{02C6}', '\U{2030}', '\U{0160}', '\U{2039}', '\U{0152}', '\U{008D}', '\U{017D}', '\U{008F}',
        '\U{0090}', '\U{2018}', '\U{2019}', '\U{201C}', '\U{201D}', '\U{2022}', '\U{2013}', '\U{2014}',
        '\U{02DC}', '\U{2122}', '\U{0161}', '\U{203A}', '\U{0153}', '\U{009D}', '\U{017E}', '\U{0178}'
      ][b - 0x80]
  }

  function Windows1252Decode(bytes: seq<nat>): (s: string)
    requires forall i :: 0 <= i < |bytes| ==> bytes[i] < 256
    ensures |s| == |bytes|
  {
    if bytes == [] then [] else [Windows1252Char(bytes[0])] + Windows1252Decode(bytes[1..])
  }

  /** A text saved as UTF-8 and read back as Windows-1252. */
  function Misread(s: string): (r: string)
    ensures |r| >= |s|
  {
    if s == [] then [] else Windows1252Decode(Utf8Char(s[0])) + Misread(s[1..])
  }

  predicate IsAscii(s: string) {
    forall i :: 0 <= i < |s| ==> s[i] as int < 0x80
  }

  /** Plain ASCII text survives the misreading unchanged. */
  lemma {:induction false} MisreadAscii(s: string)
    requires IsAscii(s)
    ensures Misread(s) == s
    decreases |s|
  {
    if s != [] {
      MisreadAscii(s[1..]);
      assert [s[0]] + s[1..] == s;
    }
  }

  /** The misreading of a concatenation is the concatenation of the misreadings. */
  lemma {:induction false} MisreadAppend(a: string, b: string)
    ensures Misread(a + b) == Misread(a) + Misread(b)
    decreases |a|
  {
    if a == [] {
      assert a + b == b;
    } else {
      assert (a + b)[0] == a[0] && (a + b)[1..] == a[1..] + b;
      MisreadAppend(a[1..], b);
    }
  }

  /** U+2019, the right single quotation mark used as an apostrophe, is
      the three bytes E2 80 99 in UTF-8, which Windows-1252 reads as the
      three characters U+00E2, U+20AC and U+2122. */
  lemma MisreadApostrophe()
    ensures Misread(['\U{2019}']) == ['\U{00E2}', '\U{20AC}', '\U{2122}']
  {
    var bytes := Utf8Char('\U{2019}');
    assert bytes == [0xE2, 0x80, 0x99];
    assert Windows1252Char(0xE2) == '\U{00E2}';
    assert Windows1252Char(0x80) == '\U{20AC}';
    assert Windows1252Char(0x99) == '\U{2122}';
    assert Windows1252Decode(bytes[2..]) == ['\U{2122}'];
    assert Windows1252Decode(bytes[1..]) == ['\U{20AC}', '\U{2122}'];
    assert Windows1252Decode(bytes) == ['\U{00E2}', '\U{20AC}', '\U{2122}'];
  }

  /** In ASCII text with one apostrophe, the misreading replaces the
      apostrophe by those three characters and keeps the rest. */
  lemma MisreadAroundApostrophe(head: string, tail: string)
    requires IsAscii(head) && IsAscii(tail)
    ensures Misread(head + ['\U{2019}'] + tail) == head + ['\U{00E2}', '\U{20AC}', '\U{2122}'] + tail
  {
    MisreadAscii(head);
    MisreadAscii(tail);
    MisreadApostrophe();
    MisreadAppend(head, ['\U{2019}']);
    MisreadAppend(head + ['\U{2019}'], tail);
  }
}
