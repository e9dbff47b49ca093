/** Parsing of JSON-lines shard files with trailing-character trimming
    (`load_json_line`, `load_jsonl` in interleaved_dataset.py).
    The JSON parser itself is a parameter `parse`: what `json.loads`
    does with one string. */
module JsonLines {
  import opened Common

  /** Outcome of one `json.loads` call: it raises, returns `None`
      (the JSON literal `null`), or returns some other value. */
  datatype LineParse<J> = Malformed | JsonNull | JsonValue(value: J)

  /** Why `load_json_line` raises. */
  datatype LineError =
    | FailedToGet(trimmed: string)  // `Exception(f'Failed to get {line_str}')`, with the trimmed text
    | NoAttempt                     // `try_times <= 0`: `data` is never bound

  /** Why `load_jsonl` raises: the ORIGINAL untrimmed line. */
  datatype JsonlError = FailedToLoadLine(line: string)

  /** The default retry budget of `load_json_line`. */
  const DefaultTryTimes := 20

  /** `line_str[:-1]`: drops the last character; an empty string stays empty. */
  function DropLast(s: string): string
  {
    if s == [] then s else s[..|s| - 1]
  }

  /** The line after `k` trimming steps. */
  function Trimmed(s: string, k: nat): (t: string)
    ensures t <= s && |t| == |s| - Min(k, |s|)
  {
    s[..|s| - Min(k, |s|)]
  }

  lemma {:induction false} TrimmedStep(s: string, k: nat)
    ensures Trimmed(s, k + 1) == DropLast(Trimmed(s, k))
  {
  }

  /** The first attempt number in `[from, n)` whose trimmed line `json.loads`
      accepts (as a value or as `null`); `n` when there is none. */
  function FirstAccepted<J>(parse: string -> LineParse<J>, s: string, from: nat, n: nat): (k: nat)
    requires from <= n
    decreases n - from
    ensures from <= k <= n
    ensures forall j :: from <= j < k ==> parse(Trimmed(s, j)).Malformed?
    ensures k < n ==> !parse(Trimmed(s, k)).Malformed?
  {
    if from == n then n
    else if !parse(Trimmed(s, from)).Malformed? then from
    else FirstAccepted(parse, s, from + 1, n)
  }

  /** What `load_json_line(s, tryTimes)` returns or raises. */
  function LoadLine<J>(parse: string -> LineParse<J>, s: string, tryTimes: int): Result<J, LineError>
  {
    if tryTimes <= 0 then Failure(NoAttempt)
    else
      var k := FirstAccepted(parse, s, 0, tryTimes);
      if k == tryTimes then Failure(FailedToGet(Trimmed(s, tryTimes)))
      else match parse(Trimmed(s, k))
        case JsonValue(v) => Success(v)
        case _ => Failure(FailedToGet(Trimmed(s, k)))
  }

  /** The attempt loop of `load_json_line`. */
  method LoadJsonLine<J>(parse: string -> LineParse<J>, line: string, tryTimes: int)
    returns (r: Result<J, LineError>)
    ensures r == LoadLine(parse, line, tryTimes)
  {
    var attempts := 0;
    var lineStr := line;
    while attempts < tryTimes
      invariant 0 <= attempts && (attempts == 0 || attempts <= tryTimes)
      invariant lineStr == Trimmed(line, attempts)
      invariant forall j :: 0 <= j < attempts ==> parse(Trimmed(line, j)).Malformed?
    {
      var p := parse(lineStr);
      if !p.Malformed? {
        assert FirstAccepted(parse, line, 0, tryTimes) == attempts;
        if p.JsonValue? {
          return Success(p.value);
        }
        return Failure(FailedToGet(lineStr));
      }
      attempts := attempts + 1;
      lineStr := DropLast(lineStr);
    }
    if attempts == 0 {
      return Failure(NoAttempt);
    }
    assert FirstAccepted(parse, line, 0, tryTimes) == tryTimes;
    return Failure(FailedToGet(lineStr));
  }

  /** Characterisation of `load_json_line`: it returns the value of the
      trimmed line at the FIRST attempt `k < tryTimes` that parses, and
      raises (with the trimmed text) when that parse is `null` or when no
      attempt parses. */
  lemma {:induction false} LoadLineSpec<J>(parse: string -> LineParse<J>, s: string, tryTimes: int, k: nat)
    requires k < tryTimes
    requires forall j :: 0 <= j < k ==> parse(Trimmed(s, j)).Malformed?
    ensures parse(Trimmed(s, k)).JsonValue? ==>
              LoadLine(parse, s, tryTimes) == Success(parse(Trimmed(s, k)).value)
    ensures parse(Trimmed(s, k)).JsonNull? ==>
              LoadLine(parse, s, tryTimes) == Failure(FailedToGet(Trimmed(s, k)))
  {
    var f := FirstAccepted(parse, s, 0, tryTimes);
    if !parse(Trimmed(s, k)).Malformed? {
      assert f == k;
    }
  }

  /** When no attempt parses, the error message carries the line with
      `tryTimes` characters trimmed, not the original line. */
  lemma {:induction false} LoadLineAllMalformed<J>(parse: string -> LineParse<J>, s: string, tryTimes: int)
    requires tryTimes > 0
    requires forall j :: 0 <= j < tryTimes ==> parse(Trimmed(s, j)).Malformed?
    ensures LoadLine(parse, s, tryTimes) == Failure(FailedToGet(Trimmed(s, tryTimes)))
  {
    var f := FirstAccepted(parse, s, 0, tryTimes);
  }

  /** Conversely, a successful load always comes from some first parsable attempt. */
  lemma {:induction false} LoadLineSuccessHasWitness<J>(parse: string -> LineParse<J>, s: string, tryTimes: int)
    requires LoadLine(parse, s, tryTimes).Success?
    ensures exists k: nat :: k < tryTimes
              && (forall j :: 0 <= j < k ==> parse(Trimmed(s, j)).Malformed?)
              && parse(Trimmed(s, k)) == JsonValue(LoadLine(parse, s, tryTimes).value)
  {
    var k := FirstAccepted(parse, s, 0, tryTimes);
    assert k < tryTimes;
  }

  /** Python's `str.strip()` whitespace (the ASCII set; for byte lines it is exact). */
  predicate IsSpace(c: char)
  {
    c == ' ' || c == '\t' || c == '\n' || c == '\r' || c == '\U{000B}' || c == '\U{000C}'
  }

  function StripStart(s: string): (t: string)
    ensures |t| <= |s| && t == s[|s| - |t|..]
    ensures t == [] || !IsSpace(t[0])
    ensures forall i :: 0 <= i < |s| - |t| ==> IsSpace(s[i])
  {
    if s != [] && IsSpace(s[0]) then StripStart(s[1..]) else s
  }

  function StripEnd(s: string): (t: string)
    ensures |t| <= |s| && t == s[..|t|]
    ensures t == [] || !IsSpace(t[|t| - 1])
    ensures forall i :: |t| <= i < |s| ==> IsSpace(s[i])
  {
    if s != [] && IsSpace(s[|s| - 1]) then StripEnd(s[..|s| - 1]) else s
  }

  /** `line.strip()`. */
  function Strip(s: string): string
  {
    StripEnd(StripStart(s))
  }

  /** `load_jsonl` only parses lines whose stripped length exceeds 2. */
  predicate Kept(line: string)
  {
    |Strip(line)| > 2
  }

  /** The lines `load_jsonl` parses, in input order. */
  function KeptLines(lines: seq<string>): (k: seq<string>)
    ensures |k| <= |lines|
    ensures forall i :: 0 <= i < |k| ==> Kept(k[i])
  {
    if lines == [] then []
    else KeptLines(lines[..|lines| - 1]) + (if Kept(lines[|lines| - 1]) then [lines[|lines| - 1]] else [])
  }

  /** Exactly the lines that pass the filter are kept: every kept line
      comes from the input, and every input line that passes is kept. */
  lemma {:induction false} KeptLinesExact(lines: seq<string>)
    ensures forall x :: x in KeptLines(lines) <==> x in lines && Kept(x)
  {
    if lines != [] {
      var init, last := lines[..|lines| - 1], lines[|lines| - 1];
      KeptLinesExact(init);
      assert lines == init + [last];
    }
  }

  /** Filtering commutes with concatenation: the kept lines of a file are
      the kept lines of its first part followed by those of the rest, so
      input order is preserved. */
  lemma {:induction false} KeptLinesConcat(a: seq<string>, b: seq<string>)
    ensures KeptLines(a + b) == KeptLines(a) + KeptLines(b)
    decreases |b|
  {
    if b == [] {
      assert a + b == a;
    } else {
      var b' := b[..|b| - 1];
      assert (a + b)[..|a + b| - 1] == a + b';
      KeptLinesConcat(a, b');
    }
  }

  /** Reference definition of `load_jsonl` over the lines of one file:
      the records of the kept lines in order, or the first kept line that
      `load_json_line` rejects. */
  function LoadLines<J>(parse: string -> LineParse<J>, lines: seq<string>): Result<seq<J>, JsonlError>
  {
    if lines == [] then Success([])
    else
      match LoadLines(parse, lines[..|lines| - 1])
      case Failure(e) => Failure(e)
      case Success(prefix) =>
        var line := lines[|lines| - 1];
        if !Kept(line) then Success(prefix)
        else match LoadLine(parse, line, DefaultTryTimes)
          case Success(v) => Success(prefix + [v])
          case Failure(_) => Failure(FailedToLoadLine(line))
  }

  /** The loop of `load_jsonl` over the lines of one file. */
  method LoadJsonl<J>(parse: string -> LineParse<J>, lines: seq<string>)
    returns (r: Result<seq<J>, JsonlError>)
    ensures r == LoadLines(parse, lines)
  {
    var data: seq<J> := [];
    var i := 0;
    while i < |lines|
      invariant 0 <= i <= |lines|
      invariant LoadLines(parse, lines[..i]) == Success(data)
    {
      var line := lines[i];
      assert lines[..i + 1][..i] == lines[..i];
      if |Strip(line)| > 2 {
        var sample := LoadJsonLine(parse, line, DefaultTryTimes);
        if sample.Failure? {
          assert LoadLines(parse, lines[..i + 1]) == Failure(FailedToLoadLine(line));
          LoadLinesFailureSticks(parse, lines, i + 1);
          return Failure(FailedToLoadLine(line));
        }
        data := data + [sample.value];
      }
      i := i + 1;
    }
    assert lines[..i] == lines;
    return Success(data);
  }

  /** Once a prefix fails, the whole file fails with the same line. */
  lemma {:induction false} LoadLinesFailureSticks<J>(parse: string -> LineParse<J>, lines: seq<string>, i: nat)
    requires i <= |lines|
    requires LoadLines(parse, lines[..i]).Failure?
    ensures LoadLines(parse, lines) == LoadLines(parse, lines[..i])
    decreases |lines| - i
  {
    if i < |lines| {
      assert lines[..i + 1][..i] == lines[..i];
      LoadLinesFailureSticks(parse, lines, i + 1);
    } else {
      assert lines[..i] == lines;
    }
  }

  /** On success `load_jsonl` keeps input order and returns exactly one
      record per kept line, namely what `load_json_line` returns for it;
      lines whose stripped length is at most 2 are skipped. */
  lemma {:induction false} LoadLinesSuccess<J>(parse: string -> LineParse<J>, lines: seq<string>)
    requires LoadLines(parse, lines).Success?
    ensures |LoadLines(parse, lines).value| == |KeptLines(lines)|
    ensures forall i :: 0 <= i < |KeptLines(lines)| ==>
              LoadLine(parse, KeptLines(lines)[i], DefaultTryTimes) == Success(LoadLines(parse, lines).value[i])
  {
    if lines != [] {
      LoadLinesSuccess(parse, lines[..|lines| - 1]);
    }
  }

  /** `kept[i]` is the first line of `kept` that `load_json_line`
      rejects, and `e` reports it. */
  ghost predicate FirstRejected<J>(parse: string -> LineParse<J>, kept: seq<string>, e: JsonlError, i: int)
  {
    && 0 <= i < |kept|
    && e == FailedToLoadLine(kept[i])
    && LoadLine(parse, kept[i], DefaultTryTimes).Failure?
    && forall j :: 0 <= j < i ==> LoadLine(parse, kept[j], DefaultTryTimes).Success?
  }

  lemma {:induction false} FirstRejectedExtends<J>(parse: string -> LineParse<J>, kept: seq<string>, more: seq<string>, e: JsonlError, i: int)
    requires FirstRejected(parse, kept, e, i)
    ensures FirstRejected(parse, kept + more, e, i)
  {
    assert forall j :: 0 <= j <= i ==> (kept + more)[j] == kept[j];
  }

  lemma {:induction false} FirstRejectedAtEnd<J>(parse: string -> LineParse<J>, kept: seq<string>, last: string)
    requires forall j :: 0 <= j < |kept| ==> LoadLine(parse, kept[j], DefaultTryTimes).Success?
    requires LoadLine(parse, last, DefaultTryTimes).Failure?
    ensures FirstRejected(parse, kept + [last], FailedToLoadLine(last), |kept|)
  {
    assert forall j :: 0 <= j < |kept| ==> (kept + [last])[j] == kept[j];
  }

  /** When `load_jsonl` fails, the error carries the first kept line that
      `load_json_line` rejects, untrimmed; every kept line before it loads. */
  lemma {:induction false} LoadLinesFailure<J>(parse: string -> LineParse<J>, lines: seq<string>)
    requires LoadLines(parse, lines).Failure?
    ensures exists i :: FirstRejected(parse, KeptLines(lines), LoadLines(parse, lines).error, i)
  {
    var init := lines[..|lines| - 1];
    var last := lines[|lines| - 1];
    var ki := KeptLines(init);
    var tail := if Kept(last) then [last] else [];
    assert KeptLines(lines) == ki + tail;
    if LoadLines(parse, init).Failure? {
      LoadLinesFailure(parse, init);
      var i :| FirstRejected(parse, ki, LoadLines(parse, init).error, i);
      FirstRejectedExtends(parse, ki, tail, LoadLines(parse, init).error, i);
    } else {
      LoadLinesSuccess(parse, init);
      FirstRejectedAtEnd(parse, ki, last);
    }
  }
}
