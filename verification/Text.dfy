/** White space, and splitting text at newlines. */
module Text {

  /** The offset of the first newline of `s`, or |s| when it has none. */
  function FirstNewline(s: string): (i: nat)
    ensures i <= |s|
    ensures forall j :: 0 <= j < i ==> s[j] != '\n'
    ensures i < |s| ==> s[i] == '\n'
  {
    if s == "" || s[0] == '\n' then 0 else 1 + FirstNewline(s[1..])
  }

  lemma {:induction false} FirstNewlineAt(s: string, i: nat)
    requires i <= |s| && '\n' !in s[..i] && (i < |s| ==> s[i] == '\n')
    ensures FirstNewline(s) == i
  {
    if i > 0 {
      assert s[..i][0] == s[0];
      assert s[1..][..i - 1] == s[..i][1..];
      FirstNewlineAt(s[1..], i - 1);
    }
  }

  /** The lines of `s`: its maximal newline-free pieces, in order. */
  function Lines(s: string): (lines: seq<string>)
    ensures |lines| >= 1
  {
    var i := FirstNewline(s);
    if i == |s| then [s] else [s[..i]] + Lines(s[i + 1..])
  }

  function Join(lines: seq<string>): string
    requires |lines| >= 1
  {
    if |lines| == 1 then lines[0] else lines[0] + "\n" + Join(lines[1..])
  }

  lemma {:induction false} JoinLines(s: string)
    ensures Join(Lines(s)) == s
  {
    var i := FirstNewline(s);
    if i < |s| {
      var rest := s[i + 1..];
      JoinLines(rest);
      assert Lines(s) == [s[..i]] + Lines(rest);
      JoinFirst(s[..i], Lines(rest));
      assert s == s[..i] + "\n" + rest;
    }
  }

  lemma JoinFirst(first: string, lines: seq<string>)
    requires |lines| >= 1
    ensures Join([first] + lines) == first + "\n" + Join(lines)
  {
    assert ([first] + lines)[1..] == lines;
  }

  /** A newline separates the lines before it from the lines after it. */
  lemma {:induction false} LinesSplit(s: string, t: string)
    ensures Lines(s + "\n" + t) == Lines(s) + Lines(t)
  {
    var i := FirstNewline(s);
    var whole := s + "\n" + t;
    assert whole[..i] == s[..i];
    FirstNewlineAt(whole, i);
    assert Lines(whole) == [s[..i]] + Lines(whole[i + 1..]);
    if i == |s| {
      assert whole[i + 1..] == t;
      assert s[..i] == s;
    } else {
      var rest := s[i + 1..];
      assert whole[i + 1..] == rest + "\n" + t;
      LinesSplit(rest, t);
      assert [s[..i]] + (Lines(rest) + Lines(t)) == ([s[..i]] + Lines(rest)) + Lines(t);
    }
  }

  // ----- White space -----

  /** unicode.IsSpace */
  predicate IsSpace(c: char) {
    c == ' ' || '\t' <= c <= '\r' || c as int in UNICODE_SPACES || 0x2000 <= c as int <= 0x200A
  }

  /** The white space outside ASCII, but for the range of typographic spaces. */
  const UNICODE_SPACES := {0x85, 0xA0, 0x1680, 0x2028, 0x2029, 0x202F, 0x205F, 0x3000}

  predicate AllSpace(s: string) {
    forall i :: 0 <= i < |s| ==> IsSpace(s[i])
  }

  lemma AllSpaceMeans(s: string)
    ensures AllSpace(s) <==> forall c :: c in s ==> IsSpace(c)
  {
    assert forall i :: 0 <= i < |s| ==> s[i] in s;
  }

  /** The characters of Unicode's White_Space property. */
  lemma SpacesAre(c: char)
    ensures IsSpace(c)
       <==> c as int in {0x09, 0x0A, 0x0B, 0x0C, 0x0D, 0x20, 0x85, 0xA0, 0x1680,
                         0x2000, 0x2001, 0x2002, 0x2003, 0x2004, 0x2005, 0x2006, 0x2007, 0x2008, 0x2009, 0x200A,
                         0x2028, 0x2029, 0x202F, 0x205F, 0x3000}
  {
  }
}
