/**
 Digests and the SHA256SUMS manifest (selfupdate/checksums.go, selfupdate/verify.go). The manifest is
 the text its UTF-8 bytes spell; the limit on a line counts its bytes.
 */
module Checksums {
  import opened Options
  import opened Text

  const HEX_LENGTH := 64
  const GITHUB_PREFIX := "sha256:"
  const MAX_LINE := 4096

  // ----- Digests -----

  predicate IsHex(c: char) {
    '0' <= c <= '9' || 'a' <= c <= 'f' || 'A' <= c <= 'F'
  }

  function LowerChar(c: char): char {
    if 'A' <= c <= 'Z' then ((c as int) + 32) as char else c
  }

  function Lower(s: string): (r: string)
    ensures |r| == |s|
  {
    seq(|s|, i requires 0 <= i < |s| => LowerChar(s[i]))
  }

  /** A digest written in hexadecimal, in either case. */
  predicate IsDigest(s: string) {
    |s| == HEX_LENGTH && forall i :: 0 <= i < |s| ==> IsHex(s[i])
  }

  /** parseHexDigest */
  method ParseHexDigest(s: string) returns (r: Option<string>)
    ensures r == if IsDigest(s) then Some(Lower(s)) else None
  {
    if |s| != HEX_LENGTH {
      return None;
    }
    for i := 0 to |s|
      invariant forall j :: 0 <= j < i ==> IsHex(s[j])
    {
      if !IsHex(s[i]) {
        return None;
      }
    }
    r := Some(Lower(s));
  }

  /** parseGitHubDigest: "sha256:" and a digest. */
  function GitHubDigest(s: string): Option<string> {
    if GITHUB_PREFIX <= s && IsDigest(s[|GITHUB_PREFIX|..]) then Some(Lower(s[|GITHUB_PREFIX|..])) else None
  }

  /** The value of a hexadecimal digit. */
  function Nibble(c: char): nat
    requires IsHex(c)
  {
    if c <= '9' then c as int - 48 else if c <= 'F' then c as int - 55 else c as int - 87
  }

  /** 64 hexadecimal digits, and the same digits in lower case. */
  ghost predicate Writes(raw: string, digest: string) {
    && |raw| == 64 && |digest| == 64
    && forall i :: 0 <= i < 64 ==> raw[i] in "0123456789abcdefABCDEF" && digest[i] in "0123456789abcdef"
                                   && IsHex(raw[i]) && IsHex(digest[i]) && Nibble(raw[i]) == Nibble(digest[i])
  }

  lemma HexDigitsAre(c: char)
    ensures IsHex(c) <==> c in "0123456789abcdefABCDEF"
    ensures IsHex(c) ==> LowerChar(c) in "0123456789abcdef" && IsHex(LowerChar(c))
    ensures IsHex(c) ==> Nibble(LowerChar(c)) == Nibble(c)
    ensures c in "0123456789abcdef" ==> LowerChar(c) == c
  {
    if IsHex(c) {
      var at := if c <= '9' then c as int - 48 else if c <= 'F' then c as int - 49 else c as int - 87;
      assert "0123456789abcdefABCDEF"[at] == c;
      assert "0123456789abcdef"[Nibble(c)] == LowerChar(c);
    }
  }

  /** Digits of one value, both in lower case, are the same digit. */
  lemma LowerDigitsDiffer(a: char, b: char)
    requires a in "0123456789abcdef" && b in "0123456789abcdef"
    ensures IsHex(a) && IsHex(b) && (Nibble(a) == Nibble(b) ==> a == b)
  {
  }

  /** A digest is 64 hexadecimal digits, and its normal form has the same digits in lower case. */
  lemma DigestsAre(raw: string, digest: string)
    ensures IsDigest(raw) && digest == Lower(raw) <==> Writes(raw, digest)
  {
    forall i | 0 <= i < |raw|
      ensures IsHex(raw[i]) <==> raw[i] in "0123456789abcdefABCDEF"
      ensures IsHex(raw[i]) ==> Lower(raw)[i] in "0123456789abcdef" && IsHex(Lower(raw)[i])
      ensures IsHex(raw[i]) ==> Nibble(Lower(raw)[i]) == Nibble(raw[i])
    {
      HexDigitsAre(raw[i]);
    }
    if Writes(raw, digest) {
      forall i | 0 <= i < |raw| ensures digest[i] == Lower(raw)[i] {
        LowerDigitsDiffer(digest[i], Lower(raw)[i]);
      }
    }
  }

  /** A GitHub digest is "sha256:" and 64 hexadecimal digits, which stand for their lower case. */
  lemma GitHubDigestsAre(s: string, digest: string)
    ensures GitHubDigest(s) == Some(digest) <==> "sha256:" <= s && Writes(s[7..], digest)
  {
    hide Writes;
    if "sha256:" <= s {
      DigestsAre(s[7..], digest);
    }
  }

  // ----- One line -----

  predicate NoSpace(s: string) {
    forall i :: 0 <= i < |s| ==> !IsSpace(s[i])
  }

  function FirstSpace(s: string): (i: nat)
    ensures i <= |s| && NoSpace(s[..i]) && (i < |s| ==> IsSpace(s[i]))
  {
    if s == "" || IsSpace(s[0]) then 0
    else
      var i := 1 + FirstSpace(s[1..]);
      assert forall j :: 0 < j < i ==> s[j] == s[1..][..i - 1][j - 1];
      i
  }

  /** strings.FieldsFunc with white space: the maximal pieces free of it. */
  function Fields(s: string): seq<string>
    decreases |s|
  {
    if s == "" then []
    else if IsSpace(s[0]) then Fields(s[1..])
    else
      var i := FirstSpace(s);
      [s[..i]] + Fields(s[i..])
  }

  /** A comment's first character that is not white space is '#'. */
  predicate IsComment(s: string) {
    s != "" && (s[0] == '#' || (IsSpace(s[0]) && IsComment(s[1..])))
  }

  /** validateChecksumName, on Unix: a name of one path element. */
  predicate IsBasename(name: string) {
    name != "" && name != "." && name != ".." && '/' !in name && '\\' !in name
  }

  datatype Line = Blank | Entry(digest: string, name: string) | Bad

  /** parseChecksumLine, apart from the entries before it. */
  function ParseLine(line: string): Line {
    if AllSpace(line) || IsComment(line) then Blank
    else
      var fields := Fields(line);
      if |fields| != 2 then Bad
      else
        var name := if "*" <= fields[1] then fields[1][1..] else fields[1];
        if '*' in name || !IsDigest(fields[0]) || !IsBasename(name) then Bad
        else Entry(Lower(fields[0]), name)
  }

  // ----- What an entry line looks like -----

  /** The line is a digest and a name, set apart by white space, the name possibly after one '*'. */
  ghost predicate Spells(line: string, digest: string, name: string) {
    exists pre, raw, mid, star, post :: SpellsAs(line, digest, name, pre, raw, mid, star, post)
  }

  ghost predicate SpellsAs(line: string, digest: string, name: string, pre: string, raw: string, mid: string,
                           star: string, post: string) {
    && line == pre + raw + mid + (star + name) + post
    && AllSpace(pre) && AllSpace(mid) && mid != "" && AllSpace(post)
    && Writes(raw, digest)
    && (star == "" || star == "*")
    && NoSpace(name) && '*' !in name
    && name != "" && name != "." && name != ".." && '/' !in name && '\\' !in name
  }

  lemma FirstSpaceAt(s: string, i: nat)
    requires i <= |s| && NoSpace(s[..i]) && (i < |s| ==> IsSpace(s[i]))
    ensures FirstSpace(s) == i
  {
    var f := FirstSpace(s);
    assert forall j :: 0 <= j < i ==> s[j] == s[..i][j];
    assert forall j :: 0 <= j < f ==> s[j] == s[..f][j];
  }

  lemma {:induction false} FieldsAfterSpace(pre: string, s: string)
    requires AllSpace(pre)
    ensures Fields(pre + s) == Fields(s)
    decreases |pre|
  {
    if pre == "" {
      assert pre + s == s;
    } else {
      assert (pre + s)[0] == pre[0] && (pre + s)[1..] == pre[1..] + s;
      FieldsAfterSpace(pre[1..], s);
    }
  }

  lemma FieldsOfWord(word: string, rest: string)
    requires word != "" && NoSpace(word) && (rest != "" ==> IsSpace(rest[0]))
    ensures Fields(word + rest) == [word] + Fields(rest)
  {
    var s := word + rest;
    assert s[..|word|] == word && s[|word|..] == rest;
    assert s[0] == word[0];
    FirstSpaceAt(s, |word|);
  }

  lemma FieldsOfSpace(s: string)
    requires AllSpace(s)
    ensures Fields(s) == []
  {
    FieldsAfterSpace(s, "");
    assert s + "" == s;
  }

  /** The white space a line begins with, and the word after it. */
  lemma {:induction false} FirstField(s: string) returns (pre: string, word: string, rest: string)
    requires Fields(s) != []
    ensures s == pre + word + rest && AllSpace(pre) && word != "" && NoSpace(word) && (rest != "" ==> IsSpace(rest[0]))
    ensures Fields(s) == [word] + Fields(rest)
    decreases |s|
  {
    if IsSpace(s[0]) {
      pre, word, rest := FirstField(s[1..]);
      pre := [s[0]] + pre;
      assert s == [s[0]] + s[1..];
    } else {
      var i := FirstSpace(s);
      pre, word, rest := "", s[..i], s[i..];
      assert i > 0;
    }
  }

  lemma {:induction false} NoFieldsIsSpace(s: string)
    requires Fields(s) == []
    ensures AllSpace(s)
    decreases |s|
  {
    if s != "" {
      assert IsSpace(s[0]);
      NoFieldsIsSpace(s[1..]);
      assert forall i :: 1 <= i < |s| ==> s[i] == s[1..][i - 1];
    }
  }

  lemma {:induction false} NotAComment(pre: string, s: string)
    requires AllSpace(pre) && s != "" && !IsSpace(s[0]) && s[0] != '#'
    ensures !IsComment(pre + s) && !AllSpace(pre + s)
    decreases |pre|
  {
    if pre == "" {
      assert pre + s == s;
    } else {
      var whole := pre + s;
      assert whole[0] == pre[0] && whole[1..] == pre[1..] + s;
      NotAComment(pre[1..], s);
      var i :| 0 <= i < |pre[1..] + s| && !IsSpace((pre[1..] + s)[i]);
      assert !IsSpace(whole[i + 1]);
    }
  }

  lemma FieldsOfTwoWords(pre: string, first: string, mid: string, second: string, post: string)
    requires AllSpace(pre) && AllSpace(mid) && mid != "" && AllSpace(post)
    requires first != "" && NoSpace(first) && second != "" && NoSpace(second)
    ensures Fields(pre + (first + (mid + (second + post)))) == [first, second]
  {
    hide Fields;
    FieldsAfterSpace(pre, first + (mid + (second + post)));
    FieldsOfWord(first, mid + (second + post));
    FieldsAfterSpace(mid, second + post);
    FieldsOfWord(second, post);
    FieldsOfSpace(post);
  }

  lemma Reassociate(a: string, b: string, c: string, d: string, e: string)
    ensures a + b + c + d + e == a + (b + (c + (d + e)))
  {
  }

  lemma HexIsNoSpace(raw: string)
    requires IsDigest(raw)
    ensures raw != "" && NoSpace(raw) && raw[0] != '#'
  {
    assert IsHex(raw[0]);
  }

  lemma SpelledLineParses(line: string, digest: string, name: string)
    requires Spells(line, digest, name)
    ensures ParseLine(line) == Entry(digest, name)
  {
    var pre, raw, mid, star, post :| SpellsAs(line, digest, name, pre, raw, mid, star, post);
    var marked := star + name;
    DigestsAre(raw, digest);
    HexIsNoSpace(raw);
    StarIsTaken(star, name);
    assert IsBasename(name);
    hide *;
    MarkIsNoSpace(star, name);
    var tail := raw + (mid + (marked + post));
    Reassociate(pre, raw, mid, marked, post);
    FieldsOfTwoWords(pre, raw, mid, marked, post);
    assert tail[0] == raw[0];
    NotAComment(pre, tail);
    ParsesAs(line, raw, marked, name);
  }

  lemma ParsesAs(line: string, raw: string, marked: string, name: string)
    requires !AllSpace(line) && !IsComment(line) && Fields(line) == [raw, marked]
    requires name == (if "*" <= marked then marked[1..] else marked) && '*' !in name
    requires IsDigest(raw) && IsBasename(name)
    ensures ParseLine(line) == Entry(Lower(raw), name)
  {
    hide AllSpace, IsComment, Fields, IsDigest, IsBasename, Lower;
  }

  lemma MarkIsNoSpace(star: string, name: string)
    requires (star == "" || star == "*") && NoSpace(name)
    ensures NoSpace(star + name)
  {
  }

  lemma StarIsTaken(star: string, name: string)
    requires (star == "" || star == "*") && name != "" && '*' !in name
    ensures var marked := star + name; (if "*" <= marked then marked[1..] else marked) == name
  {
    var marked := star + name;
    if star == "" {
      assert marked == name;
      assert name[0] in name;
    } else {
      assert marked[1..] == name;
    }
  }

  /** A line of two fields is two words and the white space around them. */
  lemma TwoFields(s: string) returns (pre: string, first: string, mid: string, second: string, post: string)
    requires |Fields(s)| == 2
    ensures s == pre + first + mid + second + post && Fields(s) == [first, second]
    ensures AllSpace(pre) && AllSpace(mid) && mid != "" && AllSpace(post)
    ensures first != "" && NoSpace(first) && second != "" && NoSpace(second)
  {
    var rest;
    pre, first, rest := FirstField(s);
    assert Fields(rest) == Fields(s)[1..];
    mid, second, post := FirstField(rest);
    assert Fields(post) == Fields(rest)[1..];
    NoFieldsIsSpace(post);
    hide Fields;
    BeginsWith(mid, second, post);
    Regroup(pre, first, mid, second, post);
  }

  lemma Regroup(a: string, b: string, c: string, d: string, e: string)
    ensures a + b + (c + d + e) == a + b + c + d + e
  {
  }

  lemma BeginsWith(mid: string, second: string, post: string)
    requires second != "" && NoSpace(second)
    ensures mid == "" ==> mid + second + post != "" && !IsSpace((mid + second + post)[0])
  {
    if mid == "" {
      assert (mid + second + post)[0] == second[0];
    }
  }

  lemma ParsedLineSpells(line: string, digest: string, name: string)
    requires ParseLine(line) == Entry(digest, name)
    ensures Spells(line, digest, name)
  {
    hide Fields, IsDigest, Writes;
    var pre, raw, mid, marked, post := TwoFields(line);
    ParsedParts(line, digest, name, raw, marked);
    DigestsAre(raw, digest);
    hide ParseLine;
    var star := if "*" <= marked then "*" else "";
    NameHasNoSpace(marked, star, name);
    assert SpellsAs(line, digest, name, pre, raw, mid, star, post);
  }

  lemma NameHasNoSpace(marked: string, star: string, name: string)
    requires NoSpace(marked) && star == (if "*" <= marked then "*" else "")
              && name == (if "*" <= marked then marked[1..] else marked)
    ensures NoSpace(name) && marked == star + name
  {
    assert forall i :: 0 <= i < |name| ==> name[i] == marked[|star| + i];
  }

  lemma ParsedParts(line: string, digest: string, name: string, raw: string, marked: string)
    requires ParseLine(line) == Entry(digest, name) && Fields(line) == [raw, marked]
    ensures IsDigest(raw) && digest == Lower(raw) && IsBasename(name) && '*' !in name
    ensures name == if "*" <= marked then marked[1..] else marked
  {
    hide Fields;
  }

  /** A line is read as an entry exactly when it spells one. */
  lemma EntryExactlyWhenSpelled(line: string, digest: string, name: string)
    ensures ParseLine(line) == Entry(digest, name) <==> Spells(line, digest, name)
  {
    if ParseLine(line) == Entry(digest, name) {
      ParsedLineSpells(line, digest, name);
    }
    if Spells(line, digest, name) {
      SpelledLineParses(line, digest, name);
    }
  }

  predicate NothingBefore(line: string, i: nat) {
    i <= |line| && AllSpace(line[..i]) && (i == |line| || line[i] == '#')
  }

  /** The line has only white space before its end or a '#'. */
  ghost predicate SaysNothing(line: string) {
    exists i: nat :: NothingBefore(line, i)
  }

  lemma NothingShift(line: string, i: nat)
    requires line != ""
    ensures NothingBefore(line, i + 1) <==> IsSpace(line[0]) && NothingBefore(line[1..], i)
  {
    hide IsSpace;
    if i < |line| {
      assert line[..i + 1] == [line[0]] + line[1..][..i];
      assert line[..i + 1][0] == line[0] && line[..i + 1][1..] == line[1..][..i];
      assert AllSpace(line[..i + 1]) <==> IsSpace(line[0]) && AllSpace(line[1..][..i]);
    }
  }

  lemma {:induction false} CommentsAre(line: string)
    ensures AllSpace(line) || IsComment(line) <==> SaysNothing(line)
  {
    if line == "" {
      assert NothingBefore(line, 0);
    } else {
      var rest := line[1..];
      CommentsAre(rest);
      assert AllSpace(line) <==> IsSpace(line[0]) && AllSpace(rest) by {
        assert forall j :: 1 <= j < |line| ==> line[j] == rest[j - 1];
      }
      assert NothingBefore(line, 0) <==> line[0] == '#';
      if SaysNothing(rest) && IsSpace(line[0]) {
        var i: nat :| NothingBefore(rest, i);
        NothingShift(line, i);
        assert NothingBefore(line, i + 1);
      }
      if SaysNothing(line) && line[0] != '#' {
        var i: nat :| NothingBefore(line, i);
        assert i > 0;
        NothingShift(line, i - 1);
        assert NothingBefore(rest, i - 1);
      }
    }
  }

  /** A line is skipped exactly when it says nothing, and refused exactly when it says something but no entry. */
  lemma BlankAndBadExactlyWhen(line: string)
    ensures ParseLine(line).Blank? <==> SaysNothing(line)
    ensures ParseLine(line).Bad? <==> !SaysNothing(line) && forall digest, name :: !Spells(line, digest, name)
  {
    CommentsAre(line);
    hide SaysNothing, Spells;
    forall digest, name ensures ParseLine(line) == Entry(digest, name) <==> Spells(line, digest, name) {
      EntryExactlyWhenSpelled(line, digest, name);
    }
  }

  // ----- The manifest -----

  function FirstLine(s: string): string {
    s[..FirstNewline(s)]
  }

  /** What follows the first line and its newline. */
  function AfterLine(s: string): (rest: string)
    ensures s != "" ==> |rest| < |s|
  {
    if FirstNewline(s) == |s| then "" else s[FirstNewline(s) + 1..]
  }

  /** The lines of the manifest without their newlines; none after a final newline. */
  function RawLines(s: string): seq<string>
    decreases |s|
  {
    if s == "" then [] else [FirstLine(s)] + RawLines(AfterLine(s))
  }

  lemma Prepended(a: string, b: seq<string>, c: seq<string>)
    ensures [a] + (b + c) == ([a] + b) + c
  {
  }

  /** They are the text's lines, less the empty one after a final newline. */
  lemma {:induction false} RawLinesAreTheLines(s: string)
    ensures Lines(s) == RawLines(s) + (if s == "" || s[|s| - 1] == '\n' then [""] else [])
    decreases |s|
  {
    var i := FirstNewline(s);
    if s != "" {
      var rest := AfterLine(s);
      assert RawLines(s) == [s[..i]] + RawLines(rest);
      if i < |s| {
        assert Lines(s) == [s[..i]] + Lines(rest);
        RawLinesAreTheLines(rest);
        assert rest == "" || rest[|rest| - 1] == s[|s| - 1];
        hide RawLines, Lines, FirstNewline, AfterLine;
        Prepended(s[..i], RawLines(rest), if rest == "" || rest[|rest| - 1] == '\n' then [""] else []);
      } else {
        assert s[..i] == s && rest == "";
        assert Lines(s) == [s];
      }
    }
  }

  lemma Associates(a: seq<string>, b: string, c: seq<string>)
    ensures a + ([b] + c) == (a + [b]) + c
  {
  }

  /** A line without the carriage returns it ends with. */
  function TrimCR(line: string): (r: string)
    ensures r <= line && (r != "" ==> r[|r| - 1] != '\r')
    ensures forall i :: |r| <= i < |line| ==> line[i] == '\r'
  {
    if line != "" && line[|line| - 1] == '\r' then TrimCR(line[..|line| - 1]) else line
  }

  function Reading(raw: string): Line {
    ParseLine(TrimCR(raw))
  }

  /** The bytes of a text in UTF-8. */
  function ByteLength(s: string): nat {
    if s == "" then 0
    else
      var c := s[0] as int;
      (if c < 0x80 then 1 else if c < 0x800 then 2 else if c < 0x1_0000 then 3 else 4) + ByteLength(s[1..])
  }

  /**
   A text is as long as its characters, which take one byte each up to U+007F, two up to U+07FF, then three,
   then four.
   */
  lemma {:induction false} ByteLengthsAre(s: string, c: char)
    ensures ByteLength("") == 0
    ensures ByteLength(s + [c]) - ByteLength(s) == (if c as int > 0xFFFF then 4 else if c as int > 0x7FF then 3
                                                    else if c as int > 0x7F then 2 else 1)
  {
    if s == "" {
      assert s + [c] == [c] && [c][1..] == "";
    } else {
      ByteLengthsAre(s[1..], c);
      assert (s + [c])[1..] == s[1..] + [c];
    }
  }

  /** The scanner refuses a line of 4096 bytes or more. */
  ghost predicate AllShort(raws: seq<string>) {
    forall k :: 0 <= k < |raws| ==> ByteLength(raws[k]) < 4096
  }

  ghost predicate NoneBad(raws: seq<string>) {
    forall k :: 0 <= k < |raws| ==> !Reading(raws[k]).Bad?
  }

  ghost predicate NamesDiffer(raws: seq<string>) {
    forall j, k :: 0 <= j < k < |raws| && Reading(raws[j]).Entry? && Reading(raws[k]).Entry? ==>
        Reading(raws[j]).name != Reading(raws[k]).name
  }

  ghost predicate WellFormed(raws: seq<string>) {
    AllShort(raws) && NoneBad(raws) && NamesDiffer(raws)
  }

  ghost predicate HasLine(raws: seq<string>, digest: string, name: string) {
    exists k :: 0 <= k < |raws| && Reading(raws[k]) == Entry(digest, name)
  }

  /** The entries are exactly what the lines say. */
  ghost predicate Tabulates(entries: map<string, string>, raws: seq<string>) {
    && (forall name :: name in entries ==> HasLine(raws, entries[name], name))
    && (forall k :: 0 <= k < |raws| && Reading(raws[k]).Entry? ==>
          Reading(raws[k]).name in entries && entries[Reading(raws[k]).name] == Reading(raws[k]).digest)
  }

  ghost predicate NewName(raws: seq<string>, line: Line) {
    line.Entry? ==> forall k :: 0 <= k < |raws| && Reading(raws[k]).Entry? ==> Reading(raws[k]).name != line.name
  }

  lemma OneMoreLine(done: seq<string>, raw: string)
    requires WellFormed(done)
    ensures WellFormed(done + [raw])
       <==> ByteLength(raw) < MAX_LINE && !Reading(raw).Bad? && NewName(done, Reading(raw))
  {
    hide Reading;
    var more := done + [raw];
    assert more[|done|] == raw;
    assert forall k :: 0 <= k < |done| ==> more[k] == done[k];
  }

  lemma HasLineGrows(entries: map<string, string>, done: seq<string>, raw: string)
    requires Tabulates(entries, done)
    ensures forall name :: name in entries ==> HasLine(done + [raw], entries[name], name)
  {
    hide Reading;
    forall name | name in entries ensures HasLine(done + [raw], entries[name], name) {
      assert HasLine(done, entries[name], name);
      var k :| 0 <= k < |done| && Reading(done[k]) == Entry(entries[name], name);
      assert Reading((done + [raw])[k]) == Entry(entries[name], name);
    }
  }

  /** In a table of the lines, a name is known exactly when some line has it. */
  lemma KnownExactlyWhenNotNew(entries: map<string, string>, done: seq<string>, line: Line)
    requires Tabulates(entries, done) && line.Entry?
    ensures line.name in entries <==> !NewName(done, line)
  {
    hide Reading;
    if line.name in entries {
      assert HasLine(done, entries[line.name], line.name);
    }
  }

  lemma OneMoreEntry(entries: map<string, string>, done: seq<string>, raw: string)
    requires Tabulates(entries, done)
    ensures Reading(raw) == Blank ==> Tabulates(entries, done + [raw])
    ensures Reading(raw).Entry? && Reading(raw).name !in entries ==>
              Tabulates(entries[Reading(raw).name := Reading(raw).digest], done + [raw])
  {
    hide Reading;
    var more := done + [raw];
    assert more[|done|] == raw;
    assert forall k :: 0 <= k < |done| ==> more[k] == done[k];
    HasLineGrows(entries, done, raw);
    if Reading(raw).Entry? {
      assert HasLine(more, Reading(raw).digest, Reading(raw).name) by {
        assert Reading(more[|done|]) == Entry(Reading(raw).digest, Reading(raw).name);
      }
    }
  }

  /** One more line of the manifest. */
  method AddLine(entries: map<string, string>, raw: string, ghost done: seq<string>)
    returns (r: Option<map<string, string>>)
    requires WellFormed(done) && Tabulates(entries, done)
    ensures r.Some? <==> WellFormed(done + [raw])
    ensures r.Some? ==> Tabulates(r.value, done + [raw])
  {
    hide WellFormed, Tabulates, NewName, ParseLine;
    OneMoreLine(done, raw);
    OneMoreEntry(entries, done, raw);
    if ByteLength(raw) >= MAX_LINE {
      return None;
    }
    var line := ParseLine(TrimCR(raw));
    match line {
      case Blank =>
        assert NewName(done, line) by {
          NothingIsNew(done, line);
        }
        r := Some(entries);
      case Bad =>
        r := None;
      case Entry(digest, name) =>
        KnownExactlyWhenNotNew(entries, done, line);
        r := if name in entries then None else Some(entries[name := digest]);
    }
  }

  lemma NothingIsNew(done: seq<string>, line: Line)
    requires !line.Entry?
    ensures NewName(done, line)
  {
  }

  lemma WellFormedPrefix(a: seq<string>, b: seq<string>)
    requires WellFormed(a + b)
    ensures WellFormed(a)
  {
    hide Reading;
    assert forall k :: 0 <= k < |a| ==> (a + b)[k] == a[k];
  }

  ghost predicate HasEntry(raws: seq<string>) {
    exists k :: 0 <= k < |raws| && Reading(raws[k]).Entry?
  }

  lemma EmptyExactlyWhenNoEntry(entries: map<string, string>, raws: seq<string>)
    requires Tabulates(entries, raws)
    ensures entries != map[] <==> HasEntry(raws)
  {
    hide Reading;
    if entries != map[] {
      var name :| name in entries;
      assert HasLine(raws, entries[name], name);
    }
  }

  /** parseSHA256SUMS: refuses a manifest with a bad line, two lines for one name, or no entry at all. */
  method ParseSHA256SUMS(data: string) returns (r: Option<map<string, string>>)
    ensures r.Some? <==> WellFormed(RawLines(data)) && HasEntry(RawLines(data))
    ensures r.Some? ==> Tabulates(r.value, RawLines(data))
  {
    hide HasEntry, Reading, FirstLine, AfterLine;
    var entries: map<string, string>, rest := map[], data;
    ghost var done: seq<string> := [];
    assert RawLines(data) == done + RawLines(rest);
    while rest != ""
      invariant WellFormed(done) && Tabulates(entries, done)
      invariant RawLines(data) == done + RawLines(rest)
      decreases |rest|
    {
      hide WellFormed, Tabulates;
      Associates(done, FirstLine(rest), RawLines(AfterLine(rest)));
      var next := AddLine(entries, FirstLine(rest), done);
      if next.None? {
        if WellFormed(RawLines(data)) {
          WellFormedPrefix(done + [FirstLine(rest)], RawLines(AfterLine(rest)));
        }
        return None;
      }
      entries := next.value;
      done := done + [FirstLine(rest)];
      rest := AfterLine(rest);
    }
    assert RawLines(data) == done;
    EmptyExactlyWhenNoEntry(entries, done);
    r := if entries == map[] then None else Some(entries);
  }

  lemma BasenamesAre(name: string)
    ensures IsBasename(name) <==> name != "" && name != "." && name != ".." && forall c :: c in name ==> c !in "/\\"
  {
    assert "/\\" == ['/', '\\'];
  }

  /** checksumFor */
  function ChecksumFor(entries: map<string, string>, name: string): Option<string> {
    if IsBasename(name) && name in entries then Some(entries[name]) else None
  }

  /**
   A checksum is found exactly when one line of the manifest is an entry for the name, and then it is that
   line's; no other line has that name.
   */
  lemma ChecksumIsTheOneEntry(data: string, entries: map<string, string>, name: string, digest: string)
    requires WellFormed(RawLines(data)) && Tabulates(entries, RawLines(data))
    ensures ChecksumFor(entries, name) == Some(digest) <==> HasLine(RawLines(data), digest, name)
    ensures forall other :: HasLine(RawLines(data), digest, name) && HasLine(RawLines(data), other, name) ==>
              other == digest
  {
    var raws := RawLines(data);
    if HasLine(raws, digest, name) {
      var k :| 0 <= k < |raws| && Reading(raws[k]) == Entry(digest, name);
      assert Reading(raws[k]).Entry?;
      forall other | HasLine(raws, other, name) ensures other == digest {
        var j :| 0 <= j < |raws| && Reading(raws[j]) == Entry(other, name);
        assert Reading(raws[j]).Entry?;
      }
    }
  }

  // ----- The last link -----

  /** equalDigest: the same length and no differing byte. */
  method EqualDigest(a: string, b: string) returns (equal: bool)
    ensures equal <==> a == b
  {
    if |a| != |b| {
      return false;
    }
    equal := true;
    for i := 0 to |a|
      invariant equal <==> a[..i] == b[..i]
    {
      assert a[..i + 1] == a[..i] + [a[i]] && b[..i + 1] == b[..i] + [b[i]];
      equal := equal && a[i] == b[i];
    }
    assert a[..|a|] == a && b[..|b|] == b;
  }

  /** verifyIntegrity: the staged digest is the manifest's, and GitHub's when it gave one. An absent digest is empty. */
  method VerifyIntegrity(staged: string, manifest: string, github: string) returns (ok: bool)
    ensures ok <==> staged != "" && staged == manifest && (github == "" || github == staged)
  {
    if staged == "" || manifest == "" {
      return false;
    }
    var same := EqualDigest(staged, manifest);
    if !same {
      return false;
    }
    if github == "" {
      return true;
    }
    ok := EqualDigest(staged, github);
  }
}
