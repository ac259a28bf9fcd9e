/** The parser as the source runs it: fixed NUL-terminated buffers, updated in place byte by byte. */
module HttpParser {
  import opened Bytes
  import opened Negotiation
  import opened Spec = ParserSpec

  class RequestParser {
    var state: State
    const verb: array<Byte>
    var verbLen: nat
    var methodId: Method
    const path: array<Byte>
    var pathLen: nat
    const version: array<Byte>
    var versionLen: nat
    var major: int
    var minor: int
    const line: array<Byte>
    var lineLen: nat
    var nameLen: nat
    var headerCount: nat
    var directive: Directive

    ghost var value: Parser  // what the fields and buffers amount to

    ghost predicate Shape() {
      verb.Length == METHOD_MAX && path.Length == TARGET_MAX && version.Length == VERSION_MAX &&
      line.Length == HEADER_LINE_MAX && verb != version
    }

    // Every length leaves room for the NUL that stands right behind the text.
    ghost predicate Buffered()
      reads this, verb, path, version, line
    {
      Shape() &&
      verbLen < METHOD_MAX && verb[verbLen] == NUL &&
      pathLen < TARGET_MAX && path[pathLen] == NUL &&
      versionLen < VERSION_MAX && version[versionLen] == NUL &&
      lineLen < HEADER_LINE_MAX && line[lineLen] == NUL &&
      (forall i :: 0 <= i < lineLen ==> line[i] != NUL) &&
      (state.HeaderValueSp? || state.HeaderValue? || state.HeaderLf? ==> nameLen <= lineLen)
    }

    ghost function Snapshot(): Parser
      requires Buffered()
      reads this, verb, path, version, line
    {
      Parser(state, verb[..verbLen], methodId, path[..pathLen], version[..versionLen], major, minor,
             line[..lineLen], nameLen, headerCount, directive)
    }

    ghost predicate Valid()
      reads this, verb, path, version, line
    { Buffered() && value == Snapshot() }

    constructor ()
      ensures Shape() && Valid() && value == INIT
      ensures fresh(verb) && fresh(path) && fresh(version) && fresh(line)
    {
      verb := new Byte[METHOD_MAX](_ => NUL);
      path := new Byte[TARGET_MAX](_ => NUL);
      version := new Byte[VERSION_MAX](_ => NUL);
      line := new Byte[HEADER_LINE_MAX](_ => NUL);
      state, methodId, directive := InMethod, GET, Unspecified;
      verbLen, pathLen, versionLen, lineLen, nameLen, headerCount := 0, 0, 0, 0, 0, 0;
      major, minor := 0, 0;
      value := INIT;
    }

    static method Zero(buffer: array<Byte>)
      modifies buffer
      ensures forall i :: 0 <= i < buffer.Length ==> buffer[i] == NUL
    {
      forall i | 0 <= i < buffer.Length { buffer[i] := NUL; }
    }

    method ClearRequestLine()
      requires Shape()
      modifies verb, path, version
      ensures verb[0] == NUL && path[0] == NUL && version[0] == NUL
    {
      Zero(verb);
      Zero(path);
      Zero(version);
    }

    // memset(parser, 0, sizeof(*parser))
    method Reset()
      requires Valid()
      modifies this, verb, path, version, line
      ensures Valid() && value == INIT
    {
      ClearRequestLine();
      Zero(line);
      ResetFields();
    }

    method ResetFields()
      requires Shape() && verb[0] == NUL && path[0] == NUL && version[0] == NUL && line[0] == NUL
      modifies this
      ensures Valid() && value == INIT
    {
      ResetLengths();
      state, methodId, directive, major, minor := InMethod, GET, Unspecified, 0, 0;
      value := INIT;
    }

    method ResetLengths()
      modifies this`verbLen, this`pathLen, this`versionLen, this`lineLen, this`nameLen, this`headerCount
      ensures verbLen == pathLen == versionLen == lineLen == nameLen == headerCount == 0
    {
      verbLen, pathLen, versionLen, lineLen, nameLen, headerCount := 0, 0, 0, 0, 0, 0;
    }

    method OnMethod(c: Byte)
      requires Valid() && state.InMethod?
      modifies this, verb
      ensures Valid() && value == StepMethod(old(value), c)
    {
      if c == ' ' {
        if verbLen == 0 {
          state := Failed;
        } else {
          methodId := Classify(verb[..verbLen]);
          state := InPath;
        }
      } else if IsUpper(c) {
        if verbLen >= verb.Length - 1 {
          state := Failed;
        } else {
          verb[verbLen] := c;
          verbLen := verbLen + 1;
          verb[verbLen] := NUL;
        }
      } else {
        state := Failed;
      }
      value := StepMethod(value, c);
    }

    method OnPath(c: Byte)
      requires Valid() && state.InPath?
      modifies this, path
      ensures Valid() && value == StepPath(old(value), c)
    {
      if c == ' ' {
        state := if pathLen == 0 then Failed else InVersion;
      } else if IsPathChar(c) {
        if pathLen >= path.Length - 1 {
          state := Failed;
        } else {
          path[pathLen] := c;
          pathLen := pathLen + 1;
          path[pathLen] := NUL;
        }
      } else {
        state := Failed;
      }
      value := StepPath(value, c);
    }

    method OnVersion(c: Byte)
      requires Valid() && state.InVersion?
      modifies this, version
      ensures Valid() && value == StepVersion(old(value), c)
    {
      if c == '\r' {
        if !IsValidVersion(version[..versionLen]) {
          state := Failed;
        } else {
          major, minor := Digit(version[5]), Digit(version[7]);
          state := RequestLineLf;
        }
      } else if IsVersionChar(c) {
        if versionLen >= version.Length - 1 {
          state := Failed;
        } else {
          version[versionLen] := c;
          versionLen := versionLen + 1;
          version[versionLen] := NUL;
        }
      } else {
        state := Failed;
      }
      value := StepVersion(value, c);
    }

    method OnLineStart(c: Byte)
      requires Valid() && state.HeaderLineStart?
      modifies this, line
      ensures Valid() && value == StepLineStart(old(value), c)
    {
      if c == '\r' {
        state := HeadersEndLf;
      } else if IsNameChar(c) {
        if headerCount >= MAX_HEADERS {
          state := Failed;
        } else {
          lineLen := 0;
          line[lineLen] := c;
          lineLen := lineLen + 1;
          line[lineLen] := NUL;
          state := HeaderName;
        }
      } else {
        state := Failed;
      }
      value := StepLineStart(value, c);
    }

    method AppendToLine(c: Byte)
      requires Valid() && c != NUL && (state.HeaderName? || state.HeaderValue?)
      modifies this, line
      ensures Valid()
      ensures value == if |old(value).line| < HEADER_LINE_MAX - 1
                         then old(value).(line := old(value).line + [c]) else Fail(old(value))
    {
      if lineLen >= line.Length - 1 {
        state := Failed;
      } else {
        line[lineLen] := c;
        lineLen := lineLen + 1;
        line[lineLen] := NUL;
      }
      value := if |value.line| < HEADER_LINE_MAX - 1 then value.(line := value.line + [c]) else Fail(value);
    }

    method OnName(c: Byte)
      requires Valid() && state.HeaderName?
      modifies this, line
      ensures Valid() && value == StepName(old(value), c)
    {
      if c == ':' {
        nameLen := lineLen;
        state := HeaderValueSp;
      } else if IsNameChar(c) {
        AppendToLine(c);
      } else {
        state := Failed;
      }
      value := StepName(old(value), c);
    }

    method OnValue(c: Byte)
      requires Valid() && state.HeaderValue?
      modifies this, line
      ensures Valid() && value == StepValue(old(value), c)
    {
      if c == '\r' {
        state := HeaderLf;
      } else if IsValueChar(c) {
        AppendToLine(c);
      } else {
        state := Failed;
      }
      value := StepValue(old(value), c);
    }

    method OnHeaderLf(c: Byte)
      requires Valid() && state.HeaderLf?
      modifies this
      ensures Valid() && value == StepHeaderLf(old(value), c)
    {
      if c == '\n' {
        if nameLen == |CONNECTION| && SameIgnoringCase(line[..nameLen], CONNECTION) {
          NoteConnectionHeader();
        }
        headerCount := headerCount + 1;
        state := HeaderLineStart;
      } else {
        state := Failed;
      }
      assert nameLen <= |line[..lineLen]| && line[..lineLen][..nameLen] == line[..nameLen];
      value := StepHeaderLf(value, c);
    }

    // Walks the NUL-terminated value as a comma separated list of options.
    method NoteConnectionHeader()
      requires Buffered() && state.HeaderLf?
      modifies this`directive
      ensures directive == LastOf(old(directive), Options(old(line[..lineLen][nameLen..])))
    {
      assert line[nameLen..lineLen] == line[..lineLen][nameLen..];
      ghost var goal := LastOf(directive, Options(line[nameLen..lineLen]));
      var cursor := nameLen;
      while line[cursor] != NUL
        invariant nameLen <= cursor <= lineLen
        invariant goal == LastOf(directive, Options(line[cursor..lineLen]))
        decreases lineLen - cursor
      {
        cursor := SkipSeparators(cursor);
        if line[cursor] == NUL {
          break;
        }
        var start := cursor;
        cursor := EndOfToken(start);
        var end := TrimEnd(start, cursor);
        TokenStep(directive, start, cursor, end);
        if SameIgnoringCase(line[start..end], CLOSE) {
          directive := Close;
        } else if SameIgnoringCase(line[start..end], KEEP_ALIVE) {
          directive := KeepAlive;
        }
      }
      assert line[cursor..lineLen] == [];
    }

    lemma TokenStep(d: Directive, start: nat, cursor: nat, end: nat)
      requires Buffered() && start < cursor <= lineLen && start <= end <= cursor && ',' !in line[start..cursor]
      requires cursor < lineLen ==> line[cursor] == ','
      requires !IsBlank(line[start]) && line[start..end] == TrimRight(line[start..cursor])
      ensures var r := Recognise(line[start..end]);
              LastOf(d, Options(line[start..lineLen])) ==
              LastOf(if r.Unspecified? then d else r, Options(line[cursor..lineLen]))
    {
      TakeToken(d, line[start..lineLen], cursor - start);
      assert line[start..lineLen][..cursor - start] == line[start..cursor];
      assert line[start..lineLen][cursor - start..] == line[cursor..lineLen];
    }

    method SkipSeparators(from: nat) returns (cursor: nat)
      requires Buffered() && from <= lineLen
      ensures from <= cursor <= lineLen
      ensures line[cursor] != NUL ==> !IsBlank(line[cursor]) && line[cursor] != ','
      ensures LastOf(directive, Options(line[from..lineLen])) == LastOf(directive, Options(line[cursor..lineLen]))
    {
      cursor := from;
      while line[cursor] == ' ' || line[cursor] == '\t' || line[cursor] == ','
        invariant from <= cursor <= lineLen
        invariant LastOf(directive, Options(line[from..lineLen])) == LastOf(directive, Options(line[cursor..lineLen]))
        decreases lineLen - cursor
      {
        var rest := line[cursor..lineLen];
        assert rest[1..] == line[cursor + 1..lineLen];
        if line[cursor] == ',' { SkipComma(directive, rest); } else { SkipBlank(directive, rest); }
        cursor := cursor + 1;
      }
    }

    method EndOfToken(start: nat) returns (cursor: nat)
      requires Buffered() && start <= lineLen
      ensures start <= cursor <= lineLen && ',' !in line[start..cursor]
      ensures cursor < lineLen ==> line[cursor] == ','
    {
      cursor := start;
      while line[cursor] != NUL && line[cursor] != ','
        invariant start <= cursor <= lineLen && ',' !in line[start..cursor]
        decreases lineLen - cursor
      {
        cursor := cursor + 1;
      }
    }

    method TrimEnd(start: nat, stop: nat) returns (end: nat)
      requires Buffered() && start <= stop <= lineLen
      ensures start <= end <= stop && line[start..end] == TrimRight(line[start..stop])
    {
      end := stop;
      while end > start && (line[end - 1] == ' ' || line[end - 1] == '\t')
        invariant start <= end <= stop && TrimRight(line[start..end]) == TrimRight(line[start..stop])
      {
        var s := line[start..end];
        assert s[..|s| - 1] == line[start..end - 1];
        end := end - 1;
      }
    }

    // One turn of the switch; `advance` is false when the byte is to be run again in the new state.
    method Turn(c: Byte) returns (advance: bool)
      requires Valid() && !state.Done? && !state.Failed?
      modifies this, verb, path, version, line
      ensures Valid() && (value, advance) == Transition(old(value), c)
    {
      advance := true;
      match state {
        case InMethod => OnMethod(c);
        case InPath => OnPath(c);
        case InVersion => OnVersion(c);
        case RequestLineLf => state := if c == '\n' then HeaderLineStart else Failed;
        case HeaderLineStart => OnLineStart(c);
        case HeaderName => OnName(c);
        case HeaderValueSp =>
          if !IsBlank(c) {
            state := HeaderValue;
            advance := false;
          }
        case HeaderValue => OnValue(c);
        case HeaderLf => OnHeaderLf(c);
        case HeadersEndLf => state := if c == '\n' then Spec.State.Done else Failed;
      }
      value := Transition(old(value), c).0;
    }

    ghost function Buffers(): set<array<Byte>> { {verb, path, version, line} }

    // Feeds data[start..start+len]; the same outcome and the same parser as the specification.
    method Execute(data: array<Byte>, start: nat, len: nat) returns (result: Result, consumed: nat)
      requires Valid() && start + len <= data.Length && data !in Buffers()
      modifies this, verb, path, version, line
      ensures Valid()
      ensures Outcome(result, consumed, value) == Spec.Execute(old(value), data[start..start + len])
    {
      hide Transition;
      hide Buffered;
      if state.Done? {
        return Complete, 0;
      }
      if state.Failed? {
        return Error, 0;
      }
      ghost var all := data[start..start + len];
      ghost var whole := Spec.Execute(value, all);
      var i := 0;
      while i < len
        invariant i <= len && Valid() && !value.Terminal()
        invariant data[start..start + len] == all
        invariant whole == Shifted(i, Spec.Execute(value, all[i..]))
        decreases len - i, if state.HeaderValueSp? then 1 else 0
      {
        ghost var before := value;
        var advance := Turn(data[start + i]);
        ExecuteTurn(before, all[i..]);
        if advance {
          assert all[i..][1..] == all[i + 1..];
          i := i + 1;
        }
        if state.Failed? {
          return Error, i;
        }
        if state.Done? {
          return Complete, i;
        }
      }
      return Incomplete, len;
    }
  }

  function Shifted(n: nat, o: Outcome): Outcome { o.(consumed := n + o.consumed) }

  // One turn of the loop against the byte-at-a-time specification.
  lemma ExecuteTurn(p: Parser, data: Bytes)
    requires !p.Terminal() && data != []
    ensures var (q, advance) := Transition(p, data[0]);
            Spec.Execute(p, data) ==
            (if advance then Shifted(1, Spec.Execute(q, data[1..])) else Spec.Execute(q, data)) &&
            (!advance ==> p.state.HeaderValueSp? && !q.state.HeaderValueSp?)
  {
    hide Transition;
    SecondLookAdvances(p, data[0]);
  }
}
