/**
 The in-memory log buffer (logbuffer.go): a byte buffer that is trimmed inside its own backing
 array once it outgrows maxSize, and the backward scan that returns its last lines.

 A byte is modelled as a char. Redaction is a parameter: any function on byte strings.
 */
module LogBuffers {
  import opened Text

  const MARKER := "[TRUNCATED]\n"
  const DEFAULT_LIMIT := 2 * 1024 * 1024
  const DEFAULT_TRIM_TARGET := 1024 * 1024
  /** bytes.Buffer never allocates a smaller backing array than this. */
  const SMALL_BUFFER := 64

  // ----- Specification -----

  /** Where the retained part of `data` begins: trimTarget bytes from the end, moved past the next newline if any. */
  function TrimPoint(data: string, trimTarget: nat): (p: nat)
    requires trimTarget <= |data|
    ensures |data| - trimTarget <= p <= |data|
  {
    var p := |data| - trimTarget;
    var idx := FirstNewline(data[p..]);
    if idx < |data| - p then p + idx + 1 else p
  }

  predicate BeginsLine(data: string, q: int) {
    0 < q <= |data| && data[q - 1] == '\n'
  }

  /**
   The retained part begins right behind a newline when its trimTarget bytes hold one, and no later than any
   line that begins within them; without a newline it is those bytes.
   */
  lemma CutFollowsANewline(data: string, trimTarget: nat)
    requires trimTarget <= |data|
    ensures var start, p := |data| - trimTarget, TrimPoint(data, trimTarget);
            && ('\n' !in data[start..] ==> p == start)
            && ('\n' in data[start..] ==> p > start && BeginsLine(data, p))
            && (forall q :: start < q && BeginsLine(data, q) ==> p <= q)
  {
    var start := |data| - trimTarget;
    var tail := data[start..];
    if '\n' in tail {
      var j :| 0 <= j < |tail| && tail[j] == '\n';
      assert FirstNewline(tail) <= j;
    }
    forall q | start < q && BeginsLine(data, q) ensures TrimPoint(data, trimTarget) <= q {
      assert tail[q - 1 - start] == '\n';
      assert FirstNewline(tail) <= q - 1 - start;
    }
  }

  /** What a trim is meant to leave: the marker and the retained suffix. */
  function Trimmed(data: string, trimTarget: nat): string
    requires trimTarget <= |data|
  {
    MARKER + data[TrimPoint(data, trimTarget)..]
  }

  /** `data` after the marker has been written over the front of the array that holds it. */
  function Overwritten(data: string): (r: string)
    ensures |r| == |data|
  {
    if |data| <= |MARKER| then MARKER[..|data|] else MARKER + data[|MARKER|..]
  }

  /** Once the marker is at the front of the array, the bytes of `data` there read as Overwritten(data). */
  lemma FrontOverwritten(store: string, data: string)
    requires |MARKER| <= |store| && |data| <= |store|
    requires store[..|MARKER|] == MARKER
    requires |data| > |MARKER| ==> store[|MARKER|..|data|] == data[|MARKER|..]
    ensures store[..|data|] == Overwritten(data)
  {
    if |data| > |MARKER| {
      assert store[..|data|] == store[..|MARKER|] + store[|MARKER|..|data|];
    } else {
      assert store[..|data|] == store[..|MARKER|][..|data|];
    }
  }

  /** What the trim leaves when the retained suffix is read after the marker was written in place. */
  function TrimmedInPlace(data: string, trimTarget: nat): string
    requires trimTarget <= |data|
  {
    MARKER + Overwritten(data)[TrimPoint(data, trimTarget)..]
  }

  ghost predicate Config(maxSize: nat, trimTarget: nat) {
    trimTarget < maxSize && (trimTarget == 0 ==> maxSize == 1)
  }

  /** The content the code leaves after writing `added` (already redacted) to a buffer holding `content`. */
  function AfterWrite(maxSize: nat, trimTarget: nat, content: string, added: string): string
    requires trimTarget < maxSize
  {
    var data := content + added;
    if |data| > maxSize then TrimmedInPlace(data, trimTarget) else data
  }

  /** The same write on an ideal buffer whose trim copies the retained suffix before writing the marker. */
  function IdealWrite(maxSize: nat, trimTarget: nat, content: string, added: string): string
    requires trimTarget < maxSize
  {
    var data := content + added;
    if |data| > maxSize then Trimmed(data, trimTarget) else data
  }

  /** The ideal write keeps everything while it fits; else the last bytes behind a line that says so. */
  lemma IdealWriteSays(maxSize: nat, trimTarget: nat, content: string, added: string)
    requires trimTarget < maxSize
    ensures |content| + |added| <= maxSize ==> IdealWrite(maxSize, trimTarget, content, added) == content + added
    ensures |content| + |added| > maxSize ==>
              IdealWrite(maxSize, trimTarget, content, added)
              == "[TRUNCATED]\n" + (content + added)[TrimPoint(content + added, trimTarget)..]
  {
  }

  function AfterWrites(maxSize: nat, trimTarget: nat, writes: seq<string>): string
    requires trimTarget < maxSize
  {
    if writes == [] then ""
    else AfterWrite(maxSize, trimTarget, AfterWrites(maxSize, trimTarget, writes[..|writes| - 1]), writes[|writes| - 1])
  }

  /** Everything ever written, in order. */
  function History(writes: seq<string>): string {
    if writes == [] then "" else History(writes[..|writes| - 1]) + writes[|writes| - 1]
  }

  predicate IsSuffix(s: string, t: string) {
    |s| <= |t| && t[|t| - |s|..] == s
  }

  /** The content is the whole history, or the marker followed by a suffix of it. */
  predicate Faithful(content: string, history: string) {
    || content == history
    || (|content| >= |MARKER| && content[..|MARKER|] == MARKER && IsSuffix(content[|MARKER|..], history))
  }

  // ----- The buffer -----

  class LogBuffer {
    var backing: array<char>
    var len: nat
    var maxSize: int
    var trimTarget: int
    const redact: string -> string

    ghost predicate Valid()
      reads this, backing
    {
      && len <= backing.Length
      && (backing.Length == 0 || backing.Length >= SMALL_BUFFER)
      && ((maxSize == 0 && trimTarget == 0 && len == 0)
           || (maxSize > 0 && 0 <= trimTarget && Config(maxSize, trimTarget)))
    }

    ghost function Contents(): string
      reads this, backing
      requires Valid()
    {
      backing[..len]
    }

    /** The limits in force for the next write: the zero value takes the defaults. */
    ghost function Limits(): (r: (nat, nat))
      reads this, backing
      requires Valid()
      ensures Config(r.0, r.1)
    {
      if maxSize == 0 then (DEFAULT_LIMIT, DEFAULT_TRIM_TARGET) else (maxSize, trimTarget)
    }

    /** The Go zero value. */
    constructor ZeroValue(redact: string -> string)
      ensures Valid() && fresh(backing) && this.redact == redact
      ensures Contents() == "" && Limits() == (DEFAULT_LIMIT, DEFAULT_TRIM_TARGET)
    {
      backing := new char[0];
      len, maxSize, trimTarget := 0, 0, 0;
      this.redact := redact;
    }

    /** NewLogBuffer with WithBufferSize(size, target): unusable sizes are replaced. */
    constructor New(size: int, target: int, redact: string -> string)
      ensures Valid() && fresh(backing) && this.redact == redact && Contents() == ""
      ensures maxSize == (if size <= 0 then DEFAULT_LIMIT else size)
      ensures trimTarget == if 0 < target < maxSize then target else maxSize / 2
    {
      backing := new char[0];
      len := 0;
      this.redact := redact;
      var m := if size <= 0 then DEFAULT_LIMIT else size;
      maxSize := m;
      trimTarget := if target <= 0 || target >= m then m / 2 else target;
    }

    /**
     A backing array that holds the first `len` bytes and has room for `extra` more: the present one when it is
     large enough.
     */
    method Reserve(extra: nat) returns (room: array<char>)
      requires len <= backing.Length
      ensures len + extra <= room.Length
      ensures room == backing || fresh(room)
      ensures room != backing ==> room.Length >= SMALL_BUFFER && len + extra > backing.Length
      ensures room[..len] == backing[..len]
    {
      var need := len + extra;
      if need <= backing.Length {
        return backing;
      }
      room := new char[if need < SMALL_BUFFER then SMALL_BUFFER else need + backing.Length];
      var k := 0;
      while k < len
        invariant 0 <= k <= len
        invariant room[..k] == backing[..k]
      {
        room[k] := backing[k];
        k := k + 1;
      }
    }

    /** bytes.Buffer.Write of bytes held elsewhere. */
    method Append(p: string)
      requires len <= backing.Length
      modifies this`backing, this`len, backing
      ensures len == old(len) + |p| && len <= backing.Length
      ensures backing == old(backing) || (fresh(backing) && backing.Length >= SMALL_BUFFER)
      ensures backing[..len] == old(backing[..len]) + p
    {
      var room := Reserve(|p|);
      ghost var kept := room[..len];
      backing := room;
      var j := 0;
      while j < |p|
        modifies room
        invariant 0 <= j <= |p|
        invariant room[..len + j] == kept + p[..j]
      {
        room[len + j] := p[j];
        j := j + 1;
      }
      assert p[..|p|] == p;
      len := len + |p|;
    }

    /** bytes.Buffer.Write of bytes that lie in the backing array itself, at [src, src + n). */
    method AppendOwn(src: nat, n: nat)
      requires len <= backing.Length && src + n <= backing.Length
      modifies this`backing, this`len, backing
      ensures len == old(len) + n && len <= backing.Length
      ensures backing == old(backing) || (fresh(backing) && backing.Length >= SMALL_BUFFER)
      ensures backing[..len] == old(backing[..len]) + old(backing[src..src + n])
    {
      var room := Reserve(n);
      if room == backing {
        MoveWithin(room, len, src, n);
      } else {
        CopyAcross(backing, src, room, len, n);
      }
      assert room[..len + n] == room[..len] + room[len..len + n];
      backing := room;
      len := len + n;
    }

    /** Write: redact, append, and trim inside the backing array once the buffer is over its limit. */
    method Write(p: string) returns (n: nat)
      requires Valid()
      modifies this, backing
      ensures Valid() && (backing == old(backing) || fresh(backing))
      ensures n == |p|
      ensures (maxSize, trimTarget) == old(Limits())
      ensures Contents() == AfterWrite(maxSize, trimTarget, old(Contents()), redact(p))
    {
      hide TrimmedInPlace;
      if maxSize == 0 {
        maxSize, trimTarget := DEFAULT_LIMIT, DEFAULT_TRIM_TARGET;
      }
      Append(redact(p));
      if len > maxSize {
        Trim();
      }
      n := |p|;
    }

    /** The trim: find the cut, write the marker over the front, and move the retained bytes down behind it. */
    method Trim()
      requires len <= backing.Length && backing.Length >= SMALL_BUFFER
      requires 0 <= trimTarget <= len
      modifies this`backing, this`len, backing
      ensures len <= backing.Length
      ensures backing == old(backing) || (fresh(backing) && backing.Length >= SMALL_BUFFER)
      ensures backing[..len] == TrimmedInPlace(old(backing[..len]), old(trimTarget))
    {
      ghost var data := backing[..len];
      var trimPoint := len - trimTarget;
      var idx := IndexNewline(trimPoint);
      assert data[trimPoint..] == backing[trimPoint..len];
      if idx >= 0 {
        trimPoint := trimPoint + idx + 1;
      }
      assert trimPoint == TrimPoint(data, trimTarget);
      var retained := len - trimPoint;
      WriteMarker();
      FrontOverwritten(backing[..], data);
      assert backing[trimPoint..trimPoint + retained] == Overwritten(data)[trimPoint..];
      len := |MARKER|;
      AppendOwn(trimPoint, retained);
    }

    /** bytes.IndexByte over the retained tail: -1 when there is no newline. */
    method IndexNewline(start: nat) returns (idx: int)
      requires start <= len <= backing.Length
      ensures idx == (var i := FirstNewline(backing[start..len]); if i < len - start then i else -1)
    {
      idx := 0;
      while start + idx < len
        invariant 0 <= idx <= len - start
        invariant '\n' !in backing[start..start + idx]
      {
        if backing[start + idx] == '\n' {
          assert backing[start..len][..idx] == backing[start..start + idx];
          FirstNewlineAt(backing[start..len], idx);
          return;
        }
        idx := idx + 1;
      }
      assert backing[start..len][..idx] == backing[start..start + idx];
      FirstNewlineAt(backing[start..len], idx);
      idx := -1;
    }

    /** Reset followed by WriteString: the marker lands at the front of the same array. */
    method WriteMarker()
      requires backing.Length >= SMALL_BUFFER
      modifies backing
      ensures backing[..|MARKER|] == MARKER
      ensures backing[|MARKER|..] == old(backing[|MARKER|..])
    {
      var k := 0;
      while k < |MARKER|
        invariant 0 <= k <= |MARKER|
        invariant backing[..k] == MARKER[..k]
        invariant backing[|MARKER|..] == old(backing[|MARKER|..])
      {
        backing[k] := MARKER[k];
        k := k + 1;
      }
    }
  }

  /** Go's copy between two different arrays. */
  method CopyAcross(a: array<char>, src: nat, b: array<char>, dst: nat, n: nat)
    requires a != b && src + n <= a.Length && dst + n <= b.Length
    modifies b
    ensures b[..dst] == old(b[..dst]) && b[dst..dst + n] == a[src..src + n]
  {
    var k := 0;
    while k < n
      invariant 0 <= k <= n
      invariant b[..dst] == old(b[..dst])
      invariant b[dst..dst + k] == a[src..src + k]
    {
      b[dst + k] := a[src + k];
      k := k + 1;
    }
  }

  lemma PartsOfMoved(was: string, dst: nat, src: nat, n: nat)
    requires dst + n <= |was| && src + n <= |was|
    ensures var moved := was[..dst] + was[src..src + n] + was[dst + n..];
            |moved| == |was| && moved[dst..dst + n] == was[src..src + n] && moved[..dst] == was[..dst]
                && moved[dst + n..] == was[dst + n..]
  {
  }

  /**
   Go's copy between two overlapping regions of one array: the direction is chosen so that no byte is read
   after it was overwritten.
   */
  method MoveWithin(a: array<char>, dst: nat, src: nat, n: nat)
    requires dst + n <= a.Length && src + n <= a.Length
    modifies a
    ensures a[dst..dst + n] == old(a[src..src + n])
    ensures a[..dst] == old(a[..dst])
    ensures a[dst + n..] == old(a[dst + n..])
  {
    ghost var was := a[..];
    ghost var moved := was[..dst] + was[src..src + n] + was[dst + n..];
    if dst <= src {
      var k := 0;
      while k < n
        invariant 0 <= k <= n
        invariant forall i :: 0 <= i < dst + k ==> a[i] == moved[i]
        invariant forall i :: dst + k <= i < a.Length ==> a[i] == was[i]
      {
        a[dst + k] := a[src + k];
        k := k + 1;
      }
    } else {
      var k := n;
      while k > 0
        invariant 0 <= k <= n
        invariant forall i :: 0 <= i < dst + k ==> a[i] == was[i]
        invariant forall i :: dst + k <= i < a.Length ==> a[i] == moved[i]
      {
        k := k - 1;
        a[dst + k] := a[src + k];
      }
    }
    assert a[..] == moved;
    PartsOfMoved(was, dst, src, n);
    assert a[dst..dst + n] == a[..][dst..dst + n] && a[..dst] == a[..][..dst] && a[dst + n..] == a[..][dst + n..];
  }

  // ----- What any sequence of writes leaves -----

  /** The configurations whose trim never overwrites a byte it still has to read. */
  predicate Untouched(maxSize: nat, trimTarget: nat) {
    trimTarget == 0 || maxSize >= trimTarget + |MARKER| - 1
  }

  lemma RetainedIsUntouched(data: string, maxSize: nat, trimTarget: nat)
    requires Config(maxSize, trimTarget) && Untouched(maxSize, trimTarget) && |data| > maxSize
    ensures TrimmedInPlace(data, trimTarget) == Trimmed(data, trimTarget)
    ensures TrimPoint(data, trimTarget) == |data| || TrimPoint(data, trimTarget) >= |MARKER|
  {
    var p := TrimPoint(data, trimTarget);
    if p < |data| {
      assert Overwritten(data)[p..] == data[p..];
    }
  }

  /** One write of maxSize + 1 bytes 'x' to an empty buffer. */
  function Flood(maxSize: nat): string {
    seq(maxSize + 1, _ => 'x')
  }

  lemma FloodIsCut(maxSize: nat, trimTarget: nat)
    requires trimTarget < maxSize
    ensures TrimPoint(Flood(maxSize), trimTarget) == maxSize + 1 - trimTarget
    ensures AfterWrite(maxSize, trimTarget, "", Flood(maxSize)) == TrimmedInPlace(Flood(maxSize), trimTarget)
    ensures AfterWrites(maxSize, trimTarget, [Flood(maxSize)]) == AfterWrite(maxSize, trimTarget, "", Flood(maxSize))
    ensures History([Flood(maxSize)]) == Flood(maxSize)
  {
    var data := Flood(maxSize);
    assert "" + data == data;
    var p := |data| - trimTarget;
    FirstNewlineAt(data[p..], trimTarget);
    assert History([]) == "";
  }

  /** In a configuration that is not Untouched, the flood's retained part begins with a byte of the marker. */
  lemma FloodIsCorrupted(maxSize: nat, trimTarget: nat)
    requires Config(maxSize, trimTarget) && !Untouched(maxSize, trimTarget)
    ensures |AfterWrite(maxSize, trimTarget, "", Flood(maxSize))| > |MARKER|
    ensures AfterWrite(maxSize, trimTarget, "", Flood(maxSize))[|MARKER|] != 'x'
  {
    FloodIsCut(maxSize, trimTarget);
    var p := maxSize + 1 - trimTarget;
    var data := Flood(maxSize);
    assert forall k :: 0 <= k < |MARKER| ==> MARKER[k] != 'x';
    assert Overwritten(data)[p] == MARKER[p];
    assert TrimmedInPlace(data, trimTarget)[|MARKER|] == Overwritten(data)[p..][0];
  }

  /**
   The in-place trim equals the ideal one on every content and every write exactly in the Untouched
   configurations.
   */
  lemma InPlaceTrimIsExact(maxSize: nat, trimTarget: nat)
    requires Config(maxSize, trimTarget)
    ensures (forall content: string, added: string ::
               AfterWrite(maxSize, trimTarget, content, added) == IdealWrite(maxSize, trimTarget, content, added))
       <==> Untouched(maxSize, trimTarget)
  {
    if Untouched(maxSize, trimTarget) {
      forall content: string, added: string
        ensures AfterWrite(maxSize, trimTarget, content, added) == IdealWrite(maxSize, trimTarget, content, added)
      {
        if |content + added| > maxSize {
          RetainedIsUntouched(content + added, maxSize, trimTarget);
        }
      }
    } else {
      FloodIsCorrupted(maxSize, trimTarget);
      FloodIsCut(maxSize, trimTarget);
      var ideal := IdealWrite(maxSize, trimTarget, "", Flood(maxSize));
      assert "" + Flood(maxSize) == Flood(maxSize);
      assert ideal[|MARKER|] == 'x';
      assert AfterWrite(maxSize, trimTarget, "", Flood(maxSize)) != IdealWrite(maxSize, trimTarget, "", Flood(maxSize));
    }
  }

  lemma {:induction false} WritesAreFaithful(maxSize: nat, trimTarget: nat, writes: seq<string>)
    requires Config(maxSize, trimTarget) && Untouched(maxSize, trimTarget)
    ensures Faithful(AfterWrites(maxSize, trimTarget, writes), History(writes))
  {
    if writes != [] {
      var before, added := writes[..|writes| - 1], writes[|writes| - 1];
      WritesAreFaithful(maxSize, trimTarget, before);
      var content, history := AfterWrites(maxSize, trimTarget, before), History(before);
      var data := content + added;
      if |data| <= maxSize {
        SuffixExtends(content, history, added);
      } else {
        RetainedIsUntouched(data, maxSize, trimTarget);
        SuffixExtends(content, history, added);
        CutIsFaithful(data, history + added, TrimPoint(data, trimTarget));
      }
    }
  }

  lemma SuffixExtends(content: string, history: string, added: string)
    requires Faithful(content, history)
    ensures Faithful(content + added, history + added)
  {
    if content != history {
      var kept := content[|MARKER|..];
      assert (content + added)[..|MARKER|] == MARKER;
      assert (content + added)[|MARKER|..] == kept + added;
      assert (history + added)[|history| - |kept|..] == history[|history| - |kept|..] + added;
    }
  }

  lemma CutIsFaithful(data: string, history: string, p: nat)
    requires Faithful(data, history)
    requires p <= |data| && (p == |data| || p >= |MARKER|)
    ensures Faithful(MARKER + data[p..], history)
  {
    var cut := MARKER + data[p..];
    assert cut[..|MARKER|] == MARKER && cut[|MARKER|..] == data[p..];
    if p < |data| && data != history {
      var kept := data[|MARKER|..];
      assert data[p..] == kept[p - |MARKER|..];
      assert kept == history[|history| - |kept|..];
    }
  }

  /**
   Over every run of writes the content is the whole history, or the marker and a suffix of it, exactly in the
   Untouched configurations.
   */
  lemma ContentIsFaithful(maxSize: nat, trimTarget: nat)
    requires Config(maxSize, trimTarget)
    ensures (forall writes :: Faithful(AfterWrites(maxSize, trimTarget, writes), History(writes)))
       <==> Untouched(maxSize, trimTarget)
  {
    if Untouched(maxSize, trimTarget) {
      forall writes ensures Faithful(AfterWrites(maxSize, trimTarget, writes), History(writes)) {
        WritesAreFaithful(maxSize, trimTarget, writes);
      }
    } else {
      var writes := [Flood(maxSize)];
      FloodIsCut(maxSize, trimTarget);
      FloodIsCorrupted(maxSize, trimTarget);
      var content := AfterWrites(maxSize, trimTarget, writes);
      assert content[0] == '[';
      assert content[|MARKER|..][0] != 'x';
      assert !Faithful(content, History(writes));
    }
  }

  /** Over every run of writes the buffer stays within maxSize exactly when the marker fits beside the trim target. */
  lemma ContentIsBounded(maxSize: nat, trimTarget: nat)
    requires Config(maxSize, trimTarget)
    ensures (forall writes :: |AfterWrites(maxSize, trimTarget, writes)| <= maxSize)
       <==> maxSize >= trimTarget + |MARKER|
  {
    if maxSize < trimTarget + |MARKER| {
      FloodIsCut(maxSize, trimTarget);
      assert |AfterWrites(maxSize, trimTarget, [Flood(maxSize)])| > maxSize;
    }
  }

  /** The defaults meet both conditions. */
  lemma DefaultsQualify()
    ensures DEFAULT_LIMIT == 2_097_152 && DEFAULT_TRIM_TARGET == 1_048_576
    ensures Config(DEFAULT_LIMIT, DEFAULT_TRIM_TARGET)
    ensures Untouched(DEFAULT_LIMIT, DEFAULT_TRIM_TARGET) && DEFAULT_LIMIT >= DEFAULT_TRIM_TARGET + |MARKER|
  {
  }

  // ----- TailLines -----

  function Chomp(s: string): (body: string)
    ensures s == body || (s == body + "\n")
    ensures s != "" && s[|s| - 1] == '\n' ==> s == body + "\n"
  {
    if s != "" && s[|s| - 1] == '\n' then s[..|s| - 1] else s
  }

  /** The last n lines of `s`, not counting the empty piece after one trailing newline. */
  function LastLines(s: string, n: int): string {
    var body := Chomp(s);
    if n <= 0 || body == "" then ""
    else
      var lines := Lines(body);
      if |lines| <= n then body else Join(lines[|lines| - n..])
  }

  lemma {:induction false} LinesOfSuffix(c: char, t: string)
    ensures c == '\n' ==> Lines([c] + t) == [""] + Lines(t)
    ensures c != '\n' ==> |Lines([c] + t)| == |Lines(t)|
  {
    if c == '\n' {
      LinesSplit("", t);
      assert "" + "\n" + t == [c] + t;
    } else {
      assert ([c] + t)[1..] == t;
      var i := FirstNewline(t);
      if i < |t| {
        assert ([c] + t)[i + 2..] == t[i + 1..];
      }
    }
  }

  /** The text after a newline is the join of as many lines as it holds, and there is at least one line before it. */
  lemma LastLinesAfter(body: string, i: nat)
    requires i < |body| && body[i] == '\n'
    ensures var lines, after := Lines(body), Lines(body[i + 1..]);
            |lines| > |after| && Join(lines[|lines| - |after|..]) == body[i + 1..]
  {
    var before, after := Lines(body[..i]), Lines(body[i + 1..]);
    LinesSplit(body[..i], body[i + 1..]);
    assert body == body[..i] + "\n" + body[i + 1..];
    assert (before + after)[|before|..] == after;
    JoinLines(body[i + 1..]);
  }

  /** Going one character back passes one more line exactly when that is a newline. */
  lemma LinesFrom(body: string, i: nat)
    requires i < |body|
    ensures |Lines(body[i..])| == |Lines(body[i + 1..])| + (if body[i] == '\n' then 1 else 0)
  {
    assert body[i..] == [body[i]] + body[i + 1..];
    LinesOfSuffix(body[i], body[i + 1..]);
  }

  function Newlines(s: string): nat {
    multiset(s)['\n']
  }

  /**
   `r` is the end of `body` from the beginning of a line, with n - 1 newlines, or the whole of a `body` that
   has no more.
   */
  ghost predicate EndsWithLines(body: string, r: string, n: nat) {
    && IsSuffix(r, body)
    && (r == body ==> Newlines(r) < n)
    && (r != body ==> Newlines(r) == n - 1 && body[|body| - |r| - 1] == '\n')
  }

  lemma NewlinesFrom(body: string, i: nat)
    requires i < |body|
    ensures Newlines(body[i..]) == Newlines(body[i + 1..]) + (if body[i] == '\n' then 1 else 0)
  {
    assert body[i..] == [body[i]] + body[i + 1..];
  }

  /** The text after the n-th newline from the end is the last n lines. */
  lemma LastLinesBehind(s: string, n: nat, i: nat)
    requires n > 0 && i < |Chomp(s)| && Chomp(s)[i] == '\n'
    requires |Lines(Chomp(s)[i + 1..])| == n && Newlines(Chomp(s)[i + 1..]) == n - 1
    ensures LastLines(s, n) == Chomp(s)[i + 1..]
    ensures EndsWithLines(Chomp(s), Chomp(s)[i + 1..], n)
  {
    hide Lines, Join, Newlines;
    LastLinesAfter(Chomp(s), i);
  }

  lemma AllLinesAreLast(s: string, n: nat)
    requires Chomp(s) != "" && |Lines(Chomp(s))| <= n && Newlines(Chomp(s)) < n
    ensures LastLines(s, n) == Chomp(s) && EndsWithLines(Chomp(s), Chomp(s), n)
  {
  }

  lemma NoneAtTheEnd(body: string)
    ensures body[|body|..] == "" && |Lines(body[|body|..])| == 1 && Newlines(body[|body|..]) == 0
    ensures EndsWithLines("", "", 1) && Newlines("") == 0
  {
  }

  method TailLines(s: string, n: int) returns (r: string)
    ensures r == LastLines(s, n)
    ensures n <= 0 ==> r == ""
    ensures n > 0 ==> EndsWithLines(Chomp(s), r, n)
  {
    if n <= 0 {
      return "";
    }
    var body := s;
    if body != "" && body[|body| - 1] == '\n' {
      body := body[..|body| - 1];
    }
    if body == "" {
      return "";
    }
    NoneAtTheEnd(body);
    hide *;
    var count := 0;
    var i := |body|;
    while i > 0
      invariant 0 <= i <= |body|
      invariant |Lines(body[i..])| == count + 1 && Newlines(body[i..]) == count
      invariant count < n && body == Chomp(s) && body != ""
    {
      i := i - 1;
      LinesFrom(body, i);
      NewlinesFrom(body, i);
      if body[i] == '\n' {
        count := count + 1;
        if count == n {
          LastLinesBehind(s, n, i);
          return body[i + 1..];
        }
      }
    }
    assert body[0..] == body;
    AllLinesAreLast(s, n);
    r := body;
  }
}
