/** The line protocol the chat client reads from `/ai/chat/{model}`. The
    decoded text is split on '\n'; every complete line that starts with
    "data:" carries one fragment (the rest of the line, untrimmed); a fragment
    that trims to "[DONE]" ends the stream; every other fragment has its
    literal backslash-n pairs turned into line breaks and is appended to the
    reply being streamed. */
module ChatStream {
  import opened JsText

  const DataPrefix := "data:"
  const DoneSentinel := "[DONE]"

  predicate NoNewline(s: string) {
    forall i :: 0 <= i < |s| ==> s[i] != '\n'
  }

  predicate AllLines(lines: seq<string>) {
    forall i :: 0 <= i < |lines| ==> NoNewline(lines[i])
  }

  /** Each line followed by its terminating '\n'. */
  function Join(lines: seq<string>): string {
    if lines == [] then [] else Join(lines[..|lines| - 1]) + lines[|lines| - 1] + "\n"
  }

  lemma {:induction false} JoinAppend(a: seq<string>, b: seq<string>)
    ensures Join(a + b) == Join(a) + Join(b)
    decreases |b|
  {
    if b == [] {
      assert a + b == a;
    } else {
      var init := b[..|b| - 1];
      var last := b[|b| - 1];
      assert (a + b)[..|a + b| - 1] == a + init && (a + b)[|a + b| - 1] == last;
      JoinAppend(a, init);
      calc {
        Join(a + b);
        Join(a + init) + last + "\n";
        (Join(a) + Join(init)) + last + "\n";
        Join(a) + (Join(init) + last + "\n");
        Join(a) + Join(b);
      }
    }
  }

  /** The complete lines of the read buffer and its unterminated tail. */
  datatype Split = Split(lines: seq<string>, rest: string)

  /** Reading one more character: a '\n' completes the pending tail as a line. */
  function Step(sp: Split, c: char): Split {
    if c == '\n' then Split(sp.lines + [sp.rest], []) else Split(sp.lines, sp.rest + [c])
  }

  /** `buffer.split('\n')` followed by `lines.pop()`: the lines before the last
      '\n' and the text after it. */
  function SplitBuffer(s: string): Split
    decreases |s|
  {
    if s == [] then Split([], []) else Step(SplitBuffer(s[..|s| - 1]), s[|s| - 1])
  }

  /** The lines, each with its '\n', followed by the tail, make up the buffer;
      no line and not the tail holds a '\n'. */
  lemma {:induction false} SplitBufferSpec(s: string)
    ensures var r := SplitBuffer(s);
            Join(r.lines) + r.rest == s && AllLines(r.lines) && NoNewline(r.rest)
    decreases |s|
  {
    if s != [] {
      var init := s[..|s| - 1];
      var c := s[|s| - 1];
      var t := SplitBuffer(init);
      SplitBufferSpec(init);
      assert s == init + [c];
      if c == '\n' {
        var lines := t.lines + [t.rest];
        assert Join(lines) == Join(t.lines) + t.rest + "\n" by {
          assert lines[..|t.lines|] == t.lines;
        }
        assert AllLines(lines) by {
          forall i | 0 <= i < |lines| ensures NoNewline(lines[i]) {
            if i < |t.lines| {
              assert lines[i] == t.lines[i];
            }
          }
        }
        assert Join(lines) + [] == s;
      } else {
        var rest := t.rest + [c];
        assert Join(t.lines) + rest == (Join(t.lines) + t.rest) + [c];
        assert NoNewline(rest) by {
          forall i | 0 <= i < |rest| ensures rest[i] != '\n' {
            if i < |t.rest| {
              assert rest[i] == t.rest[i];
            }
          }
        }
      }
    }
  }

  /** The split is determined by that description: text made of newline-free
      lines, each terminated, followed by a newline-free tail, splits into
      exactly those lines and that tail. In particular a tail without '\n' is
      never among the lines, whatever it holds. */
  lemma {:induction false} SplitBufferJoin(lines: seq<string>, rest: string)
    requires AllLines(lines) && NoNewline(rest)
    ensures SplitBuffer(Join(lines) + rest) == Split(lines, rest)
    decreases |Join(lines) + rest|
  {
    var s := Join(lines) + rest;
    if rest != [] {
      var init := rest[..|rest| - 1];
      assert s[..|s| - 1] == Join(lines) + init;
      SplitBufferJoin(lines, init);
      assert init + [rest[|rest| - 1]] == rest;
    } else if lines != [] {
      var init := lines[..|lines| - 1];
      var last := lines[|lines| - 1];
      assert s == Join(init) + last + "\n";
      assert s[..|s| - 1] == Join(init) + last;
      SplitBufferJoin(init, last);
      assert init + [last] == lines;
    } else {
      assert s == [];
    }
  }

  /** The tail of a split holds no complete line. */
  lemma SplitBufferRest(x: string)
    ensures SplitBuffer(SplitBuffer(x).rest) == Split([], SplitBuffer(x).rest)
  {
    var a := SplitBuffer(x);
    SplitBufferSpec(x);
    SplitBufferJoin([], a.rest);
    assert Join([]) + a.rest == a.rest;
  }

  /** Independence from chunk boundaries: splitting `x`, then splitting its
      tail followed by `y`, yields the lines and the tail of splitting `x + y`
      at once. */
  lemma {:induction false} SplitBufferAppend(x: string, y: string)
    ensures var a := SplitBuffer(x);
            var b := SplitBuffer(a.rest + y);
            SplitBuffer(x + y) == Split(a.lines + b.lines, b.rest)
    decreases |y|
  {
    var a := SplitBuffer(x);
    if y == [] {
      SplitBufferRest(x);
      assert x + y == x && a.rest + y == a.rest && a.lines + [] == a.lines;
    } else {
      var init := y[..|y| - 1];
      var c := y[|y| - 1];
      SplitBufferAppend(x, init);
      var b := SplitBuffer(a.rest + init);
      assert SplitBuffer(x + y) == Step(Split(a.lines + b.lines, b.rest), c) by {
        assert (x + y)[..|x + y| - 1] == x + init && (x + y)[|x + y| - 1] == c;
      }
      assert SplitBuffer(a.rest + y) == Step(b, c) by {
        assert (a.rest + y)[..|a.rest + y| - 1] == a.rest + init && (a.rest + y)[|a.rest + y| - 1] == c;
      }
      if c == '\n' {
        assert a.lines + b.lines + [b.rest] == a.lines + (b.lines + [b.rest]);
      }
    }
  }


  /** What one line asks of the consumer. */
  datatype LineAction = Skip | Done | Token(text: string)

  /** The handling of one complete line: blank lines and lines without the
      "data:" prefix are skipped; the fragment is everything after the prefix,
      untrimmed; a fragment that trims to "[DONE]" ends the stream. */
  function ParseLine(line: string): (a: LineAction)
    ensures a.Skip? <==> !StartsWith(line, DataPrefix)
    ensures a.Token? ==> line == DataPrefix + a.text
  {
    TrimEmptyIff(line);
    assert line != [] ==> line[0] in line;
    if Trim(line) == "" then
      Skip
    else if !StartsWith(line, DataPrefix) then
      Skip
    else
      var token := line[|DataPrefix|..];
      assert line == DataPrefix + token;
      if Trim(token) == DoneSentinel then Done else Token(token)
  }

  /** Termination is exact: a line ends the stream precisely when it is
      "data:" followed by "[DONE]" with nothing but whitespace around it. A
      fragment that merely contains "[DONE]" among other text is a token. */
  lemma ParseLineDoneExact(line: string)
    ensures ParseLine(line) == Done <==>
      exists a, b :: AllWhitespace(a) && AllWhitespace(b) && line == DataPrefix + a + DoneSentinel + b
  {
    if ParseLine(line) == Done {
      var a, b := DonePadding(line);
    }
    if exists a, b :: AllWhitespace(a) && AllWhitespace(b) && line == DataPrefix + a + DoneSentinel + b {
      var a, b :| AllWhitespace(a) && AllWhitespace(b) && line == DataPrefix + a + DoneSentinel + b;
      PaddedDone(a, b);
    }
  }

  lemma DonePadding(line: string) returns (a: string, b: string)
    requires ParseLine(line) == Done
    ensures AllWhitespace(a) && AllWhitespace(b) && line == DataPrefix + a + DoneSentinel + b
  {
    var token := line[|DataPrefix|..];
    assert line == DataPrefix + token;
    assert Trim(token) == DoneSentinel;
    a, b := TrimDecompose(token);
    assert token == a + DoneSentinel + b;
    assert DataPrefix + token == DataPrefix + a + DoneSentinel + b;
  }

  lemma PaddedDone(a: string, b: string)
    requires AllWhitespace(a) && AllWhitespace(b)
    ensures ParseLine(DataPrefix + a + DoneSentinel + b) == Done
  {
    var line := DataPrefix + a + DoneSentinel + b;
    assert line[|DataPrefix|..] == a + DoneSentinel + b;
    TrimPadded(a, DoneSentinel, b);
    TrimEmptyIff(line);
    assert line[0] == 'd';
  }

  /** A backslash followed by 'n' starts `s`. */
  predicate StartsEscape(s: string) {
    |s| >= 2 && s[0] == '\\' && s[1] == 'n'
  }

  /** `s` contains a backslash followed by 'n'. */
  predicate HasEscape(s: string) {
    exists i :: 0 <= i < |s| - 1 && s[i] == '\\' && s[i + 1] == 'n'
  }

  /** `replaceAll("\\n", "\n")`: scanning left to right, each backslash
      followed by 'n' becomes one line break. */
  function Unescape(s: string): (r: string)
    ensures s != [] ==> r != [] && r[0] == (if StartsEscape(s) then '\n' else s[0])
    decreases |s|
  {
    if s == [] then []
    else if StartsEscape(s) then "\n" + Unescape(s[2..])
    else [s[0]] + Unescape(s[1..])
  }

  /** No backslash-n survives unescaping. */
  lemma {:induction false} UnescapeLeavesNoEscape(s: string)
    ensures !HasEscape(Unescape(s))
    decreases |s|
  {
    if s != [] {
      var r := Unescape(s);
      var u := if StartsEscape(s) then Unescape(s[2..]) else Unescape(s[1..]);
      UnescapeLeavesNoEscape(if StartsEscape(s) then s[2..] else s[1..]);
      assert r == [r[0]] + u;
      forall i | 0 <= i < |r| - 1 ensures !(r[i] == '\\' && r[i + 1] == 'n') {
        if i > 0 {
          assert r[i] == u[i - 1] && r[i + 1] == u[i];
        } else if !StartsEscape(s) {
          assert r[1] == u[0];
        }
      }
    }
  }

  lemma {:induction false} UnescapeIdentity(s: string)
    requires !HasEscape(s)
    ensures Unescape(s) == s
    decreases |s|
  {
    if s != [] {
      assert !StartsEscape(s);
      assert !HasEscape(s[1..]) by {
        forall i | 0 <= i < |s| - 2 ensures !(s[1..][i] == '\\' && s[1..][i + 1] == 'n') {
          assert s[1..][i] == s[i + 1] && s[1..][i + 1] == s[i + 2];
        }
      }
      UnescapeIdentity(s[1..]);
      assert s == [s[0]] + s[1..];
    }
  }

  /** Unescaping changes a fragment exactly when it holds a backslash-n. */
  lemma UnescapeFixedIff(s: string)
    ensures Unescape(s) == s <==> !HasEscape(s)
  {
    UnescapeLeavesNoEscape(s);
    if !HasEscape(s) {
      UnescapeIdentity(s);
    }
  }

  /** The escaping a server applies so that a fragment holding line breaks
      fits on one "data:" line: each line break becomes backslash-n. */
  function Escape(s: string): (r: string)
    ensures NoNewline(r) && |r| >= |s|
    ensures s != [] ==> r[0] == (if s[0] == '\n' then '\\' else s[0])
    decreases |s|
  {
    if s == [] then [] else (if s[0] == '\n' then "\\n" else [s[0]]) + Escape(s[1..])
  }

  /** Unescape inverts Escape on every text without a literal backslash-n. */
  lemma {:induction false} UnescapeEscape(s: string)
    requires !HasEscape(s)
    ensures Unescape(Escape(s)) == s
    decreases |s|
  {
    if s != [] {
      var e := Escape(s[1..]);
      assert !HasEscape(s[1..]) by {
        forall i | 0 <= i < |s| - 2 ensures !(s[1..][i] == '\\' && s[1..][i + 1] == 'n') {
          assert s[1..][i] == s[i + 1] && s[1..][i + 1] == s[i + 2];
        }
      }
      UnescapeEscape(s[1..]);
      if s[0] == '\n' {
        assert Escape(s)[2..] == e;
      } else {
        assert Escape(s) == [s[0]] + e;
        if |s| >= 2 {
          assert !(s[0] == '\\' && s[1] == 'n');
        }
        assert !StartsEscape(Escape(s));
      }
      assert s == [s[0]] + s[1..];
    }
  }

  /** The text one token appends: an empty token becomes a line break, then
      literal backslash-n pairs become line breaks. */
  function TokenText(token: string): (r: string)
    ensures r != []
  {
    Unescape(if token == "" then "\n" else token)
  }

  /** A bare "data:" line carries the empty token, which appends a line break
      rather than nothing. */
  lemma EmptyTokenIsLineBreak()
    ensures ParseLine("data:") == Token("") && LineText("data:") == "\n"
  {
    assert "data:"[5..] == "";
    assert Unescape("\n") == "\n";
  }

  /** The texts the lines append, in order: one per token line, up to the
      line that ends the stream. */
  function Fragments(lines: seq<string>): seq<string>
    decreases |lines|
  {
    if lines == [] then
      []
    else
      match ParseLine(lines[0])
      case Done => []
      case Skip => Fragments(lines[1..])
      case Token(t) => [TokenText(t)] + Fragments(lines[1..])
  }

  /** Some line ends the stream. */
  function Terminated(lines: seq<string>): bool
    decreases |lines|
  {
    lines != [] && (ParseLine(lines[0]).Done? || Terminated(lines[1..]))
  }

  /** No more fragments than lines, and none of them empty: every appended
      token changes the last entry. */
  lemma {:induction false} FragmentsSpec(lines: seq<string>)
    ensures var fs := Fragments(lines);
            |fs| <= |lines| && forall i :: 0 <= i < |fs| ==> fs[i] != []
    decreases |lines|
  {
    if lines != [] {
      FragmentsSpec(lines[1..]);
    }
  }

  /** The stream ends exactly when one of its lines is the end line. */
  lemma {:induction false} TerminatedSpec(lines: seq<string>)
    ensures Terminated(lines) <==> exists i :: 0 <= i < |lines| && ParseLine(lines[i]).Done?
    decreases |lines|
  {
    if lines != [] {
      TerminatedSpec(lines[1..]);
      if exists i :: 0 <= i < |lines| && ParseLine(lines[i]).Done? {
        var i :| 0 <= i < |lines| && ParseLine(lines[i]).Done?;
        if i > 0 {
          assert lines[1..][i - 1] == lines[i];
        }
      }
      if Terminated(lines[1..]) {
        var j :| 0 <= j < |lines[1..]| && ParseLine(lines[1..][j]).Done?;
        assert lines[j + 1] == lines[1..][j];
      }
    }
  }

  /** Processing `a` then `b` is processing `a + b`; once `a` has ended the
      stream, nothing of `b` is appended. */
  lemma {:induction false} FragmentsAppend(a: seq<string>, b: seq<string>)
    ensures Fragments(a + b) == if Terminated(a) then Fragments(a) else Fragments(a) + Fragments(b)
    ensures Terminated(a + b) == (Terminated(a) || Terminated(b))
    decreases |a|
  {
    if a == [] {
      assert a + b == b;
    } else {
      assert (a + b)[0] == a[0] && (a + b)[1..] == a[1..] + b;
      FragmentsAppend(a[1..], b);
      match ParseLine(a[0])
      case Done =>
      case Skip =>
      case Token(t) =>
        var f := [TokenText(t)];
        assert f + Fragments(a[1..]) + Fragments(b) == f + (Fragments(a[1..]) + Fragments(b));
    }
  }

  /** The text one line appends: its token's text, or nothing. */
  function LineText(line: string): string {
    match ParseLine(line)
    case Token(t) => TokenText(t)
    case _ => ""
  }

  /** One more line after a prefix that has not ended the stream: it ends the
      stream exactly when it is the end line, and appends its own text. */
  lemma FragmentsStep(prefix: seq<string>, line: string)
    requires !Terminated(prefix)
    ensures Terminated(prefix + [line]) == ParseLine(line).Done?
    ensures Concat(Fragments(prefix + [line])) == Concat(Fragments(prefix)) + LineText(line)
  {
    FragmentsAppend(prefix, [line]);
    assert [line][1..] == [];
    match ParseLine(line)
    case Skip =>
      assert Fragments(prefix) + [] == Fragments(prefix);
      assert Concat(Fragments(prefix)) + "" == Concat(Fragments(prefix));
    case Done =>
      assert Fragments(prefix) + [] == Fragments(prefix);
      assert Concat(Fragments(prefix)) + "" == Concat(Fragments(prefix));
    case Token(t) =>
      var text := TokenText(t);
      ConcatAppend(Fragments(prefix), [text]);
      assert Concat([text]) == text by {
        assert [text][..0] == [];
      }
  }

  /** Handling stops after the first `i` lines either at the end of the
      lines or at the end line; nothing after it is handled. */
  lemma FragmentsStopped(lines: seq<string>, i: nat)
    requires i <= |lines| && (i == |lines| || Terminated(lines[..i]))
    ensures Fragments(lines) == Fragments(lines[..i])
    ensures Terminated(lines) == Terminated(lines[..i])
  {
    assert lines[..i] + lines[i..] == lines;
    FragmentsAppend(lines[..i], lines[i..]);
    if i == |lines| {
      assert lines[i..] == [];
      assert Fragments(lines[..i]) + [] == Fragments(lines[..i]);
    }
  }

  /** The concatenation of the parts, in order. */
  function Concat(parts: seq<string>): string {
    if parts == [] then [] else Concat(parts[..|parts| - 1]) + parts[|parts| - 1]
  }

  lemma {:induction false} ConcatAppend(a: seq<string>, b: seq<string>)
    ensures Concat(a + b) == Concat(a) + Concat(b)
    decreases |b|
  {
    if b == [] {
      assert a + b == a;
    } else {
      var init := b[..|b| - 1];
      var last := b[|b| - 1];
      assert (a + b)[..|a + b| - 1] == a + init && (a + b)[|a + b| - 1] == last;
      ConcatAppend(a, init);
      calc {
        Concat(a + b);
        Concat(a + init) + last;
        (Concat(a) + Concat(init)) + last;
        Concat(a) + (Concat(init) + last);
        Concat(a) + Concat(b);
      }
    }
  }

  /** Reading one more chunk `c` after the text `x`, keeping only the tail of
      `x` as the buffer, appends exactly what reading `x + c` at once would
      have appended after `x`: the split does not depend on where one chunk
      ends and the next begins. */
  lemma ChunkStep(x: string, c: string)
    requires !Terminated(SplitBuffer(x).lines)
    ensures var s := SplitBuffer(x);
            var n := SplitBuffer(s.rest + c);
            var w := SplitBuffer(x + c);
            && w.rest == n.rest && Terminated(w.lines) == Terminated(n.lines)
            && Concat(Fragments(w.lines)) == Concat(Fragments(s.lines)) + Concat(Fragments(n.lines))
  {
    var s := SplitBuffer(x);
    var n := SplitBuffer(s.rest + c);
    SplitBufferAppend(x, c);
    FragmentsAppend(s.lines, n.lines);
    ConcatAppend(Fragments(s.lines), Fragments(n.lines));
  }

  /** Once the text read so far has ended the stream, nothing read after it
      changes what was appended. */
  lemma StreamStopped(x: string, y: string)
    requires Terminated(SplitBuffer(x).lines)
    ensures var w := SplitBuffer(x + y).lines;
            Terminated(w) && Fragments(w) == Fragments(SplitBuffer(x).lines)
  {
    var s := SplitBuffer(x);
    SplitBufferAppend(x, y);
    FragmentsAppend(s.lines, SplitBuffer(s.rest + y).lines);
  }

  /** A fragment the protocol can carry: it is not empty (an empty token reads
      back as a line break), holds no literal backslash-n, and does not read
      as the end of the stream. */
  predicate Conveyable(f: string) {
    f != [] && !HasEscape(f) && Trim(Escape(f)) != DoneSentinel
  }

  /** The line a server writes for one fragment. */
  function DataLine(fragment: string): string {
    DataPrefix + Escape(fragment)
  }

  function DataLines(fragments: seq<string>): (lines: seq<string>)
    ensures |lines| == |fragments|
    decreases |fragments|
  {
    if fragments == [] then [] else [DataLine(fragments[0])] + DataLines(fragments[1..])
  }

  lemma ParseDataLine(f: string)
    requires Conveyable(f)
    ensures ParseLine(DataLine(f)) == Token(Escape(f))
    ensures TokenText(Escape(f)) == f
  {
    var line := DataLine(f);
    assert line[|DataPrefix|..] == Escape(f);
    TrimEmptyIff(line);
    assert line[0] == 'd';
    UnescapeEscape(f);
  }

  /** Every line a server writes for a fragment is free of line breaks. */
  lemma {:induction false} DataLinesAreLines(fs: seq<string>)
    ensures AllLines(DataLines(fs))
    decreases |fs|
  {
    if fs != [] {
      var lines := DataLines(fs);
      var tail := DataLines(fs[1..]);
      DataLinesAreLines(fs[1..]);
      assert NoNewline(lines[0]) by {
        assert lines[0] == DataPrefix + Escape(fs[0]);
      }
      forall i | 0 < i < |lines| ensures NoNewline(lines[i]) {
        assert lines[i] == tail[i - 1];
      }
    }
  }

  /** Every fragment is conveyable, stated one fragment at a time. This is the
      quantified requirement of `StreamRoundTrip` unfolded along the sequence;
      it exists only to drive the induction of `FragmentsOfDataLines`, and
      `AllConveyableEach` connects the two forms. */
  predicate AllConveyable(fs: seq<string>)
    decreases |fs|
  {
    fs == [] || (Conveyable(fs[0]) && AllConveyable(fs[1..]))
  }

  lemma {:induction false} AllConveyableEach(fs: seq<string>)
    requires forall i :: 0 <= i < |fs| ==> Conveyable(fs[i])
    ensures AllConveyable(fs)
    decreases |fs|
  {
    if fs != [] {
      assert forall i :: 0 <= i < |fs[1..]| ==> fs[1..][i] == fs[i + 1];
      AllConveyableEach(fs[1..]);
    }
  }

  /** The data lines of conveyable fragments give back the fragments and do
      not end the stream. */
  lemma {:induction false} FragmentsOfDataLines(fs: seq<string>)
    requires AllConveyable(fs)
    ensures Fragments(DataLines(fs)) == fs && !Terminated(DataLines(fs))
    decreases |fs|
  {
    if fs != [] {
      var lines := DataLines(fs);
      var tail := DataLines(fs[1..]);
      assert lines[1..] == tail;
      assert ParseLine(lines[0]) == Token(Escape(fs[0])) && TokenText(Escape(fs[0])) == fs[0] by {
        ParseDataLine(fs[0]);
      }
      FragmentsOfDataLines(fs[1..]);
      assert fs == [fs[0]] + fs[1..];
    }
  }

  /** Round trip of the whole protocol: a server that writes one escaped
      "data:" line per fragment and then a line that ends the stream (such as
      "data: [DONE]", see PaddedDone) delivers exactly its fragments, in order,
      and whatever it writes after the end is ignored. */
  lemma StreamRoundTrip(fs: seq<string>, endLine: string, after: string)
    requires forall i :: 0 <= i < |fs| ==> Conveyable(fs[i])
    requires NoNewline(endLine) && ParseLine(endLine) == Done
    ensures var s := SplitBuffer(Join(DataLines(fs) + [endLine]) + after);
            Fragments(s.lines) == fs && Terminated(s.lines)
  {
    var head := DataLines(fs);
    var lines := head + [endLine];
    AllConveyableEach(fs);
    FragmentsOfDataLines(fs);
    assert Fragments(lines) == fs && Terminated(lines) by {
      FragmentsAppend(head, [endLine]);
      assert Fragments([endLine]) == [] && Terminated([endLine]);
    }
    assert SplitBuffer(Join(lines)) == Split(lines, "") by {
      DataLinesAreLines(fs);
      assert AllLines(lines);
      SplitBufferJoin(lines, "");
      assert Join(lines) + "" == Join(lines);
    }
    var more := SplitBuffer(after);
    assert SplitBuffer(Join(lines) + after) == Split(lines + more.lines, more.rest) by {
      SplitBufferAppend(Join(lines), after);
      assert "" + after == after;
    }
    FragmentsAppend(lines, more.lines);
  }
}
