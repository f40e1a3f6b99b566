/**
 * The development-time `stripe listen` bridge of `src/module.ts`: whether the
 * listener is started, the command line it is started with, and what the
 * handler receives for each chunk the child process writes on stdout and on
 * stderr. A chunk is an input string; the handler calls are the output
 * sequence. Each chunk is handled on its own: nothing is carried over from
 * one chunk to the next.
 */
module CliListener {
  import opened Wrappers
  import opened JsText

  // ---------------------------------------------------------------------------
  // Listener start and command line
  // ---------------------------------------------------------------------------

  /** `options.webhook.listener`: not set, `false`, or a path. */
  datatype ListenerOption = Unset | Disabled | Path(path: string)

  datatype Command = Command(command: string, args: seq<string>)

  const DefaultListenerPath := "/api/stripe/webhook"

  /** The listener runs only in development and only when not switched off. */
  predicate StartsListener(dev: bool, listener: ListenerOption) {
    dev && listener != Disabled
  }

  /** `options.webhook.listener || '/api/stripe/webhook'`. */
  function ListenerPath(listener: ListenerOption): (r: string)
    ensures r == (if listener.Path? && listener.path != "" then listener.path else DefaultListenerPath)
    ensures r != ""
  {
    match listener
    case Path(p) => if p != "" then p else DefaultListenerPath
    case _ => DefaultListenerPath
  }

  /** The development server origin, `http://localhost:<port>`. */
  function Origin(port: nat): string {
    "http://localhost:" + NatToDecimal(port)
  }

  /** The value following the first occurrence of `flag` on a command line,
      which is how the CLI reads its options. */
  function FlagValue(args: seq<string>, flag: string): Option<string> {
    if |args| < 2 then None
    else if args[0] == flag then Some(args[1])
    else FlagValue(args[1..], flag)
  }

  /** The process started by `setup`, if any: `stripe listen` with the API key,
      the forwarding URL and JSON output. The module option secret wins over
      the runtime-config secret unless it is empty; `joinURL` is passed in. */
  function ListenerInvocation(dev: bool, port: nat, optionsSecret: string, runtimeSecret: string,
                              listener: ListenerOption, joinURL: (string, string) -> string): (r: Option<Command>)
    ensures r.Some? <==> StartsListener(dev, listener)
    ensures r.Some? ==> r.value.command == "stripe" && |r.value.args| == 7
    ensures r.Some? ==> r.value.args[0] == "listen" && r.value.args[1] == "--api-key"
    ensures r.Some? ==> r.value.args[3] == "--forward-to"
    ensures r.Some? ==> r.value.args[5] == "--format" && r.value.args[6] == "JSON"
    ensures r.Some? ==> r.value.args[2] == (if optionsSecret != "" then optionsSecret else runtimeSecret)
    ensures r.Some? ==> r.value.args[4] == joinURL(Origin(port), ListenerPath(listener))
  {
    if !StartsListener(dev, listener) then None
    else
      var secret := if optionsSecret != "" then optionsSecret else runtimeSecret;
      var url := joinURL(Origin(port), ListenerPath(listener));
      Some(Command("stripe", ["listen", "--api-key", secret, "--forward-to", url, "--format", "JSON"]))
  }

  /** Read back as the CLI reads it, the command line carries the resolved
      secret, the forwarding URL and the JSON format, provided neither the
      secret nor the URL looks like a flag itself. */
  lemma ListenerFlags(port: nat, optionsSecret: string, runtimeSecret: string,
                      listener: ListenerOption, joinURL: (string, string) -> string)
    requires listener != Disabled
    requires !StartsWith(optionsSecret, "--") && !StartsWith(runtimeSecret, "--")
    requires !StartsWith(joinURL(Origin(port), ListenerPath(listener)), "--")
    ensures var c := ListenerInvocation(true, port, optionsSecret, runtimeSecret, listener, joinURL).value;
      && FlagValue(c.args, "--api-key") == Some(if optionsSecret != "" then optionsSecret else runtimeSecret)
      && FlagValue(c.args, "--forward-to") == Some(joinURL(Origin(port), ListenerPath(listener)))
      && FlagValue(c.args, "--format") == Some("JSON")
  {
    var c := ListenerInvocation(true, port, optionsSecret, runtimeSecret, listener, joinURL).value;
    var secret := c.args[2];
    var url := c.args[4];
    assert secret != "--forward-to" && secret != "--format" by {
      assert StartsWith("--forward-to", "--") && StartsWith("--format", "--");
    }
    assert url != "--format" by { assert StartsWith("--format", "--"); }
    var a := c.args;
    assert a[1..] == ["--api-key", secret, "--forward-to", url, "--format", "JSON"];
    assert a[2..] == [secret, "--forward-to", url, "--format", "JSON"];
    assert a[3..] == ["--forward-to", url, "--format", "JSON"];
    assert a[4..] == [url, "--format", "JSON"];
    assert a[5..] == ["--format", "JSON"];
    assert FlagValue(a, "--forward-to") == FlagValue(a[1..], "--forward-to") == FlagValue(a[2..], "--forward-to")
      == FlagValue(a[3..], "--forward-to");
    assert FlagValue(a, "--format") == FlagValue(a[1..], "--format") == FlagValue(a[2..], "--format")
      == FlagValue(a[3..], "--format") == FlagValue(a[4..], "--format") == FlagValue(a[5..], "--format");
  }

  // ---------------------------------------------------------------------------
  // Stdout chunks
  // ---------------------------------------------------------------------------

  /** What the handler receives: the value `JSON.parse` produced, or text. */
  datatype Payload<J> = Json(value: J) | Text(text: string)

  /** `Array.prototype.map`. */
  function Map<T, U>(f: T -> U, s: seq<T>): seq<U> {
    if |s| == 0 then [] else [f(s[0])] + Map(f, s[1..])
  }

  lemma {:induction false} MapAt<T, U>(f: T -> U, s: seq<T>)
    ensures |Map(f, s)| == |s|
    ensures forall k :: 0 <= k < |s| ==> Map(f, s)[k] == f(s[k])
  {
    if |s| > 0 {
      var rest := Map(f, s[1..]);
      MapAt(f, s[1..]);
      forall k | 0 < k < |s| ensures Map(f, s)[k] == f(s[k]) {
        assert Map(f, s)[k] == rest[k - 1];
        assert s[1..][k - 1] == s[k];
      }
    }
  }

  lemma {:induction false} MapAppend<T, U>(f: T -> U, a: seq<T>, b: seq<T>)
    ensures Map(f, a + b) == Map(f, a) + Map(f, b)
  {
    var ab := a + b;
    if |a| > 0 {
      assert ab[0] == a[0] && ab[1..] == a[1..] + b;
      MapAppend(f, a[1..], b);
      calc {
        Map(f, ab);
        [f(a[0])] + Map(f, a[1..] + b);
        [f(a[0])] + (Map(f, a[1..]) + Map(f, b));
        ([f(a[0])] + Map(f, a[1..])) + Map(f, b);
      }
    } else {
      assert ab == b;
    }
  }

  /** `.map(part => part.trim())`. */
  function TrimAll(pieces: seq<string>): seq<string> {
    Map(Trim, pieces)
  }

  lemma TrimAllAt(pieces: seq<string>)
    ensures |TrimAll(pieces)| == |pieces|
    ensures forall k :: 0 <= k < |pieces| ==> TrimAll(pieces)[k] == Trim(pieces[k])
  {
    MapAt(Trim, pieces);
  }

  lemma TrimAllAppend(a: seq<string>, b: seq<string>)
    ensures TrimAll(a + b) == TrimAll(a) + TrimAll(b)
  {
    MapAppend(Trim, a, b);
  }

  /** `.filter(Boolean)` on strings: drops the empty ones, keeps the order. */
  function DropEmpty(pieces: seq<string>): (r: seq<string>)
    ensures |r| <= |pieces|
    ensures forall k :: 0 <= k < |r| ==> r[k] != "" && r[k] in pieces
  {
    if |pieces| == 0 then []
    else (if pieces[0] == "" then [] else [pieces[0]]) + DropEmpty(pieces[1..])
  }

  /** The lines of one chunk: the pieces between '\n' separators, trimmed,
      the empty ones dropped. No line is empty, and there are no more lines
      than pieces. */
  function Lines(chunk: string): (r: seq<string>)
    ensures |r| <= |Split(chunk, '\n')|
    ensures forall k :: 0 <= k < |r| ==> r[k] != ""
  {
    TrimAllAt(Split(chunk, '\n'));
    DropEmpty(TrimAll(Split(chunk, '\n')))
  }

  /** Every line is a piece of the chunk with its white space trimmed: it is
      not empty, holds no '\n' and neither starts nor ends with white space. */
  lemma LinesAreTrimmedPieces(chunk: string)
    ensures forall k :: 0 <= k < |Lines(chunk)| ==> Lines(chunk)[k] in TrimAll(Split(chunk, '\n'))
    ensures forall k :: 0 <= k < |Lines(chunk)| ==> Lines(chunk)[k] != ""
    ensures forall k :: 0 <= k < |Lines(chunk)| ==>
      !IsSpace(Lines(chunk)[k][0]) && !IsSpace(Lines(chunk)[k][|Lines(chunk)[k]| - 1])
    ensures forall k :: 0 <= k < |Lines(chunk)| ==> '\n' !in Lines(chunk)[k]
  {
    var pieces := Split(chunk, '\n');
    var trimmed := TrimAll(pieces);
    var r := DropEmpty(trimmed);
    assert r == Lines(chunk);
    TrimAllAt(pieces);
    forall k | 0 <= k < |r|
      ensures '\n' !in r[k] && !IsSpace(r[k][0]) && !IsSpace(r[k][|r[k]| - 1])
    {
      var m :| 0 <= m < |trimmed| && trimmed[m] == r[k];
      TrimmedPiece(pieces[m]);
    }
  }

  /** A trimmed piece without '\n' holds no '\n' and, unless empty, neither
      starts nor ends with white space. */
  lemma TrimmedPiece(piece: string)
    requires '\n' !in piece
    ensures '\n' !in Trim(piece)
    ensures Trim(piece) == [] || (!IsSpace(Trim(piece)[0]) && !IsSpace(Trim(piece)[|Trim(piece)| - 1]))
  {
    TrimIsInnerPiece(piece);
    var r, i := Trim(piece), |piece| - |TrimStart(piece)|;
    forall j | 0 <= j < |r| ensures r[j] != '\n' {
      assert r[j] == piece[i + j];
    }
  }

  /** One trimmed line: a line starting with `{` goes through `JSON.parse`;
      when that throws, the line itself is handed on. */
  function Classify<J>(line: string, parse: string -> Option<J>): (r: Payload<J>)
    ensures r.Text? <==> parse(line).None?
    ensures r.Text? ==> r.text == line
    ensures r.Json? ==> parse(line) == Some(r.value)
  {
    match parse(line)
    case Some(v) => Json(v)
    case None => Text(line)
  }

  /** The handler calls made for a list of lines: one per line starting with
      `{`, in order. Text is only ever handed on for such a line. */
  function Forwarded<J>(lines: seq<string>, parse: string -> Option<J>): (r: seq<Payload<J>>)
    ensures |r| <= |lines|
    ensures forall k :: 0 <= k < |r| && r[k].Text? ==> r[k].text in lines && StartsWith(r[k].text, "{")
  {
    if |lines| == 0 then []
    else (if StartsWith(lines[0], "{") then [Classify(lines[0], parse)] else []) + Forwarded(lines[1..], parse)
  }

  /** The handler calls one stdout chunk causes: at most one per line, and
      text only for a line of the chunk that starts with `{`. */
  function StdoutPayloads<J>(chunk: string, parse: string -> Option<J>): (r: seq<Payload<J>>)
    ensures |r| <= |Lines(chunk)|
    ensures forall k :: 0 <= k < |r| && r[k].Text? ==> r[k].text in Lines(chunk) && StartsWith(r[k].text, "{")
  {
    Forwarded(Lines(chunk), parse)
  }

  /** The stdout `data` listener: split, trim, drop empty pieces, then call the
      handler for each line that starts with `{`. */
  method HandleStdoutChunk<J>(chunk: string, parse: string -> Option<J>) returns (calls: seq<Payload<J>>)
    ensures calls == StdoutPayloads(chunk, parse)
  {
    var parts := Lines(chunk);
    calls := [];
    for k := 0 to |parts|
      invariant calls == Forwarded(parts[..k], parse)
    {
      var data := parts[k];
      ForwardedStep(parts, k, parse);
      if StartsWith(data, "{") {
        var payload := Classify(data, parse);
        calls := calls + [payload];
      }
    }
    assert parts[..|parts|] == parts;
  }

  /** One more line adds its call, if any, at the end. */
  lemma ForwardedStep<J>(lines: seq<string>, k: nat, parse: string -> Option<J>)
    requires k < |lines|
    ensures Forwarded(lines[..k + 1], parse) ==
      Forwarded(lines[..k], parse) + (if StartsWith(lines[k], "{") then [Classify(lines[k], parse)] else [])
  {
    ForwardedAppend(lines[..k], [lines[k]], parse);
    assert lines[..k + 1] == lines[..k] + [lines[k]];
  }

  lemma {:induction false} ForwardedAppend<J>(a: seq<string>, b: seq<string>, parse: string -> Option<J>)
    ensures Forwarded(a + b, parse) == Forwarded(a, parse) + Forwarded(b, parse)
  {
    if |a| > 0 {
      ForwardedAppend(a[1..], b, parse);
      assert (a + b)[1..] == a[1..] + b;
    } else {
      assert a + b == b;
    }
  }

  lemma {:induction false} DropEmptyAppend(a: seq<string>, b: seq<string>)
    ensures DropEmpty(a + b) == DropEmpty(a) + DropEmpty(b)
  {
    if |a| > 0 {
      DropEmptyAppend(a[1..], b);
      assert (a + b)[1..] == a[1..] + b;
    } else {
      assert a + b == b;
    }
  }

  /** The pieces of `a + [sep] + b` are those of `a` followed by those of `b`. */
  lemma {:induction false} SplitConcat(a: string, b: string, sep: char)
    ensures Split(a + [sep] + b, sep) == Split(a, sep) + Split(b, sep)
  {
    var s := a + [sep] + b;
    SplitStep(s, sep);
    if |a| == 0 {
      assert s[0] == sep && s[1..] == b;
    } else {
      assert s[0] == a[0] && s[1..] == a[1..] + [sep] + b;
      SplitStep(a, sep);
      var ra, rb := Split(a[1..], sep), Split(b, sep);
      assert Split(s[1..], sep) == ra + rb by { SplitConcat(a[1..], b, sep); }
      if a[0] != sep {
        HeadJoin(a[0], ra, rb);
      } else {
        assert [""] + (ra + rb) == ([""] + ra) + rb;
      }
    }
  }

  /** One step of `Split`: the first character either ends the first piece or
      joins it. */
  lemma SplitStep(s: string, sep: char)
    requires |s| > 0
    ensures Split(s, sep) == if s[0] == sep then [""] + Split(s[1..], sep)
      else [[s[0]] + Split(s[1..], sep)[0]] + Split(s[1..], sep)[1..]
  {
  }

  lemma HeadJoin(c: char, ra: seq<string>, rb: seq<string>)
    requires |ra| >= 1
    ensures [[c] + (ra + rb)[0]] + (ra + rb)[1..] == ([[c] + ra[0]] + ra[1..]) + rb
  {
    assert (ra + rb)[0] == ra[0];
    assert (ra + rb)[1..] == ra[1..] + rb;
  }

  /** Lines do not cross a '\n': the lines of `a + "\n" + b` are those of `a`
      followed by those of `b`. */
  lemma LinesConcat(a: string, b: string)
    ensures Lines(a + "\n" + b) == Lines(a) + Lines(b)
  {
    SplitConcat(a, b, '\n');
    var pa, pb := Split(a, '\n'), Split(b, '\n');
    TrimAllAppend(pa, pb);
    DropEmptyAppend(TrimAll(pa), TrimAll(pb));
  }

  /** Order and multiplicity: the calls for `a + "\n" + b` are the calls for
      `a` followed by the calls for `b`, each exactly once. */
  lemma StdoutConcat<J>(a: string, b: string, parse: string -> Option<J>)
    ensures StdoutPayloads(a + "\n" + b, parse) == StdoutPayloads(a, parse) + StdoutPayloads(b, parse)
  {
    LinesConcat(a, b);
    ForwardedAppend(Lines(a), Lines(b), parse);
  }

  /** A chunk holding one line causes at most one call: none when the trimmed
      line is empty or does not start with `{`, else the classified line. */
  lemma StdoutSingleLine<J>(s: string, parse: string -> Option<J>)
    requires '\n' !in s
    ensures StdoutPayloads(s, parse) ==
      if StartsWith(Trim(s), "{") then [Classify(Trim(s), parse)] else []
  {
    SplitNoSeparator(s, '\n');
    var t := Trim(s);
    assert TrimAll([s]) == [t] by { TrimAllAt([s]); }
    assert DropEmpty([t]) == if t == "" then [] else [t] by {
      assert DropEmpty([t][1..]) == [];
    }
    assert Lines(s) == if t == "" then [] else [t];
    if t != "" {
      assert Forwarded([t], parse) == (if StartsWith(t, "{") then [Classify(t, parse)] else []) + Forwarded([t][1..], parse);
    }
  }

  /** The lines that start with `{`, in order. */
  function BraceLines(lines: seq<string>): (r: seq<string>)
    ensures forall k :: 0 <= k < |r| ==> r[k] in lines && StartsWith(r[k], "{")
  {
    if |lines| == 0 then []
    else (if StartsWith(lines[0], "{") then [lines[0]] else []) + BraceLines(lines[1..])
  }

  /** Each line starting with `{` causes exactly one call, in the order of the
      lines, and no other line causes one. */
  lemma {:induction false} ForwardedAreBraceLines<J>(lines: seq<string>, parse: string -> Option<J>)
    ensures |Forwarded(lines, parse)| == |BraceLines(lines)|
    ensures forall k :: 0 <= k < |BraceLines(lines)| ==>
      Forwarded(lines, parse)[k] == Classify(BraceLines(lines)[k], parse)
  {
    if |lines| > 0 {
      ForwardedAreBraceLines(lines[1..], parse);
    }
  }

  /** A line that arrives whole in one chunk is handed on as one value. */
  lemma WholeLineHandedOn<J>(line: string, parse: string -> Option<J>)
    requires '\n' !in line && StartsWith(line, "{") && !IsSpace(line[|line| - 1])
    ensures StdoutPayloads(line, parse) == [Classify(line, parse)]
  {
    assert line[0] == line[..1][0] == '{';
    TrimUnchanged(line);
    assert Trim(line) == line;
    StdoutSingleLine(line, parse);
  }

  lemma NotInParts(c: char, a: string, b: string)
    requires c !in a + b
    ensures c !in a && c !in b
  {
    assert forall k :: 0 <= k < |a| ==> a[k] == (a + b)[k];
    assert forall k :: 0 <= k < |b| ==> b[k] == (a + b)[|a| + k];
  }

  /** A line cut in two by a chunk boundary is not put back together: the
      first half is handed on by itself, as if it were the whole line, and a
      second half that does not start with `{` never reaches the handler. For
      instance the chunks
      `{"id":` and `"evt_1"}` cause one call, with `{"id":`. */
  lemma {:induction false} SplitLineNotReassembled<J>(head: string, tail: string, parse: string -> Option<J>)
    requires '\n' !in head + tail
    requires StartsWith(head, "{") && !IsSpace(head[|head| - 1])
    requires tail != [] && !IsSpace(tail[0]) && !IsSpace(tail[|tail| - 1]) && tail[0] != '{'
    ensures StdoutPayloads(head + tail, parse) == [Classify(head + tail, parse)]
    ensures StdoutPayloads(head, parse) + StdoutPayloads(tail, parse) == [Classify(head, parse)]
  {
    JoinedLineHandedOn(head, tail, parse);
    assert StdoutPayloads(head, parse) == [Classify(head, parse)] by {
      NotInParts('\n', head, tail);
      WholeLineHandedOn(head, parse);
    }
    TailAloneIgnored(head, tail, parse);
  }

  /** A second half that does start with `{`, as when a line is cut before a
      nested object (`{"data":` and `{"id":"evt_1"}}`), is handed on too: the
      halves give two calls where the whole line gives one. */
  lemma SplitLineBothHalvesHandedOn<J>(head: string, tail: string, parse: string -> Option<J>)
    requires '\n' !in head + tail
    requires StartsWith(head, "{") && !IsSpace(head[|head| - 1])
    requires StartsWith(tail, "{") && !IsSpace(tail[|tail| - 1])
    ensures StdoutPayloads(head + tail, parse) == [Classify(head + tail, parse)]
    ensures StdoutPayloads(head, parse) + StdoutPayloads(tail, parse) == [Classify(head, parse), Classify(tail, parse)]
  {
    JoinedLineHandedOn(head, tail, parse);
    NotInParts('\n', head, tail);
    WholeLineHandedOn(head, parse);
    WholeLineHandedOn(tail, parse);
  }

  lemma JoinedLineHandedOn<J>(head: string, tail: string, parse: string -> Option<J>)
    requires '\n' !in head + tail
    requires StartsWith(head, "{") && tail != [] && !IsSpace(tail[|tail| - 1])
    ensures StdoutPayloads(head + tail, parse) == [Classify(head + tail, parse)]
  {
    var line := head + tail;
    assert line[..1] == head[..1];
    assert line[|line| - 1] == tail[|tail| - 1];
    WholeLineHandedOn(line, parse);
  }

  lemma TailAloneIgnored<J>(head: string, tail: string, parse: string -> Option<J>)
    requires '\n' !in head + tail
    requires tail != [] && !IsSpace(tail[0]) && !IsSpace(tail[|tail| - 1]) && tail[0] != '{'
    ensures StdoutPayloads(tail, parse) == []
  {
    assert '\n' !in tail by { NotInParts('\n', head, tail); }
    assert Trim(tail) == tail by { TrimUnchanged(tail); }
    assert tail[..1] != "{" by { assert tail[..1][0] == tail[0]; }
    StdoutSingleLine(tail, parse);
  }

  // ---------------------------------------------------------------------------
  // Stderr chunks
  // ---------------------------------------------------------------------------

  const SecretPrefix := "Your webhook signing secret is "

  /** `/Your webhook signing secret is (\S+)/` matches at position `i`. */
  predicate MatchesAt(s: string, i: nat) {
    i + |SecretPrefix| < |s| && s[i..i + |SecretPrefix|] == SecretPrefix && !IsSpace(s[i + |SecretPrefix|])
  }

  /** The leftmost match at or after `from`, as the regular expression finds it. */
  function FirstMatch(s: string, from: nat): (r: Option<nat>)
    decreases |s| - from
    ensures r.Some? ==> from <= r.value && MatchesAt(s, r.value)
    ensures r.Some? ==> forall j :: from <= j < r.value ==> !MatchesAt(s, j)
    ensures r.None? ==> forall j :: from <= j ==> !MatchesAt(s, j)
  {
    if from + |SecretPrefix| >= |s| then None
    else if MatchesAt(s, from) then Some(from)
    else FirstMatch(s, from + 1)
  }

  /** The maximal run of non-white-space characters starting at `i` (`\S+`). */
  function TokenFrom(s: string, i: nat): (r: string)
    requires i <= |s|
    decreases |s| - i
    ensures i + |r| <= |s| && r == s[i..i + |r|]
    ensures forall k :: 0 <= k < |r| ==> !IsSpace(r[k])
    ensures i + |r| == |s| || IsSpace(s[i + |r|])
  {
    if i < |s| && !IsSpace(s[i]) then [s[i]] + TokenFrom(s, i + 1) else ""
  }

  /** `data.match(/Your webhook signing secret is (\S+)/)?.[1]`. */
  function SigningSecret(chunk: string): (r: Option<string>)
    ensures r.Some? <==> exists i: nat :: MatchesAt(chunk, i)
    ensures r.Some? ==> r.value != ""
    ensures r.Some? ==> exists i: nat :: MatchesAt(chunk, i) && (forall j :: 0 <= j < i ==> !MatchesAt(chunk, j))
                                         && r.value == TokenFrom(chunk, i + |SecretPrefix|)
  {
    match FirstMatch(chunk, 0)
    case Some(i) => Some(TokenFrom(chunk, i + |SecretPrefix|))
    case None => None
  }

  /** The message announcing the secret: the prefix, then the token between
      backticks. */
  function SecretMessage(token: string): (r: string)
    ensures |r| == |SecretPrefix| + |token| + 2
    ensures StartsWith(r, SecretPrefix) && StartsWith(r, "Your webhook signing secret")
    ensures r[|SecretPrefix|] == '`' && r[|r| - 1] == '`'
    ensures r[|SecretPrefix| + 1..|r| - 1] == token
  {
    var r := SecretPrefix + "`" + token + "`";
    assert r[..|SecretPrefix|] == SecretPrefix;
    assert r[..27] == "Your webhook signing secret";
    r
  }

  /** The handler calls one stderr chunk causes. */
  function StderrMessages(chunk: string): (r: seq<string>)
    ensures |r| <= 1
    ensures |r| == 1 <==> exists i: nat :: MatchesAt(chunk, i)
    ensures |r| == 1 ==> StartsWith(r[0], "Your webhook signing secret")
    ensures |r| == 1 ==> SigningSecret(chunk).Some? && r[0] == SecretMessage(SigningSecret(chunk).value)
  {
    match SigningSecret(chunk)
    case Some(ws) =>
      if ws != "" then [SecretMessage(ws)]
      else []
    case None => []
  }

  /** `TokenFrom` gives the maximal run: any non-white-space run at `i` that
      ends at white space or at the end of `s` is it. */
  lemma {:induction false} TokenFromIs(s: string, i: nat, token: string)
    requires i + |token| <= |s| && s[i..i + |token|] == token
    requires forall k :: 0 <= k < |token| ==> !IsSpace(token[k])
    requires i + |token| == |s| || IsSpace(s[i + |token|])
    ensures TokenFrom(s, i) == token
    decreases |token|
  {
    if |token| > 0 {
      assert s[i] == token[0];
      assert s[i + 1..i + 1 + |token[1..]|] == token[1..];
      TokenFromIs(s, i + 1, token[1..]);
      assert token == [token[0]] + token[1..];
    }
  }

  /** A chunk with the announcement after some text that holds no earlier
      match, such as the CLI's ready line, hands on exactly the token: the
      maximal non-white-space run after the prefix. */
  lemma AnnouncedSecret(pre: string, token: string, rest: string)
    requires token != ""
    requires forall k :: 0 <= k < |token| ==> !IsSpace(token[k])
    requires rest == "" || IsSpace(rest[0])
    requires forall j :: 0 <= j < |pre| ==> !MatchesAt(pre + SecretPrefix + token + rest, j)
    ensures StderrMessages(pre + SecretPrefix + token + rest) == [SecretMessage(token)]
  {
    var s := pre + SecretPrefix + token + rest;
    var n := |pre| + |SecretPrefix|;
    assert s[|pre|..n] == SecretPrefix;
    assert s[n] == token[0];
    assert MatchesAt(s, |pre|);
    FirstMatchIs(s, 0, |pre|);
    assert s[n..n + |token|] == token;
    TokenFromIs(s, n, token);
  }

  /** The leftmost match is the first position that matches. */
  lemma {:induction false} FirstMatchIs(s: string, from: nat, i: nat)
    requires from <= i && MatchesAt(s, i)
    requires forall j :: from <= j < i ==> !MatchesAt(s, j)
    ensures FirstMatch(s, from) == Some(i)
    decreases i - from
  {
    if from < i {
      FirstMatchIs(s, from + 1, i);
    }
  }

  // ---------------------------------------------------------------------------
  // The handler `setup` passes in
  // ---------------------------------------------------------------------------

  /** What one handler call does: log the line, ignore it, or throw. */
  datatype HandlerOutcome = Logged(line: string) | Ignored | ThrowsTypeError

  /** The handler as written: `event.startsWith(...)` on whatever it receives.
      A parsed JSON object has no `startsWith`, so calling it throws. */
  function SetupHandlerAsWritten<J>(event: Payload<J>): (r: HandlerOutcome)
    ensures r == ThrowsTypeError <==> event.Json?
  {
    match event
    case Json(_) => ThrowsTypeError
    case Text(s) => if StartsWith(s, "Your webhook signing secret") then Logged(s) else Ignored
  }

  /** Every secret a stderr chunk announces is logged by the setup handler. */
  lemma StderrMessagesLogged<J>(chunk: string)
    ensures forall m :: m in StderrMessages(chunk) ==> SetupHandlerAsWritten<J>(Text(m)) == Logged(m)
  {
  }

  /** As written, a stdout line that `JSON.parse` accepts, such as
      `{"id":"evt_1"}`, is handed to the setup handler, which throws on it. */
  lemma SetupHandlerThrowsOnEvent<J>(line: string, parse: string -> Option<J>)
    requires '\n' !in line && StartsWith(line, "{") && !IsSpace(line[|line| - 1])
    requires parse(line).Some?
    ensures var calls := StdoutPayloads(line, parse);
      |calls| == 1 && SetupHandlerAsWritten(calls[0]) == ThrowsTypeError
  {
    WholeLineHandedOn(line, parse);
  }

  /** The throw ends the listener's `for` loop, so when such a line comes first
      in a chunk, the handler is called once, throws, and none of the lines
      after it in that chunk is handed on: the call that throws is the first
      of the calls the chunk would make. */
  lemma SetupHandlerThrowCutsChunk<J>(line: string, rest: string, parse: string -> Option<J>)
    requires '\n' !in line && StartsWith(line, "{") && !IsSpace(line[|line| - 1])
    requires parse(line).Some?
    ensures var calls := StdoutPayloads(line + "\n" + rest, parse);
      |calls| == 1 + |StdoutPayloads(rest, parse)| && calls[0] == Classify(line, parse) &&
      SetupHandlerAsWritten(calls[0]) == ThrowsTypeError
  {
    StdoutConcat(line, rest, parse);
    WholeLineHandedOn(line, parse);
  }

  /** The handler with the type check the listener's signature implies: only
      text is looked at. */
  function SetupHandler<J>(event: Payload<J>): (r: HandlerOutcome)
    ensures r != ThrowsTypeError
    ensures r.Logged? <==> event.Text? && StartsWith(event.text, "Your webhook signing secret")
    ensures r.Logged? ==> r.line == event.text
  {
    match event
    case Json(_) => Ignored
    case Text(s) => if StartsWith(s, "Your webhook signing secret") then Logged(s) else Ignored
  }

  /** With the type check, no stdout chunk makes the handler throw, and what it logs
      from stdout is only text lines carrying the announcement. */
  lemma SetupHandlerNeverThrows<J>(chunk: string, parse: string -> Option<J>)
    ensures forall p :: p in StdoutPayloads(chunk, parse) ==> SetupHandler(p) != ThrowsTypeError
    ensures forall m :: m in StderrMessages(chunk) ==> SetupHandler<J>(Text(m)) == Logged(m)
  {
  }
}
