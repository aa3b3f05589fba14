/** The API playground: the free-text header field parsed into a header
    object, the request URL, the curl and Python code samples, and the
    options of the (simulated) request.  The header object keeps JavaScript
    object semantics for string keys: insertion order, and assignment to an
    existing key overwrites its value in place. */
module ApiPlayground {
  import opened Optional
  import opened Text
  import Seqs

  datatype HttpMethod = GET | POST | PUT | DELETE

  function MethodName(m: HttpMethod): string {
    match m
    case GET => "GET"
    case POST => "POST"
    case PUT => "PUT"
    case DELETE => "DELETE"
  }

  datatype Header = Header(name: string, value: string)

  /** One line of the header field, destructured as `[key, ...valueParts] =
      line.split(':')`: it yields a header exactly when there is a colon with
      something before it; the name is the trimmed text before the first colon
      and the value the trimmed text after it, later colons included. */
  function ParseHeaderLine(line: string): (r: Option<Header>)
    ensures var i := IndexOf(line, ':');
            && (r.Some? <==> i > 0)
            && (r.Some? ==> r.value == Header(Trim(line[..i]), Trim(line[i + 1..])))
  {
    SplitFirst(line, ':');
    var parts := Split(line, ':');
    if parts[0] != [] && |parts| > 1 then
      Some(Header(Trim(parts[0]), Trim(Join(parts[1..], ":"))))
    else
      None
  }

  /** A line that is blank after trimming never yields a header. */
  lemma BlankLineNeverParses(line: string)
    requires Trim(line) == []
    ensures ParseHeaderLine(line).None?
  {
    TrimBlank(line);
    assert !IsJsWhitespace(':');
    assert ':' !in line;
  }

  /** A line written as name, colon, value parses back to the trimmed name
      and the trimmed value, whatever colons the value holds. */
  lemma ColonInValueSurvives(name: string, value: string)
    requires name != [] && ':' !in name
    ensures ParseHeaderLine(name + ":" + value) == Some(Header(Trim(name), Trim(value)))
  {
    var line := name + ":" + value;
    assert line[..|name|] == name && line[|name|] == ':';
    assert IndexOf(line, ':') == |name|;
    assert line[|name| + 1..] == value;
  }

  predicate DistinctNames(hs: seq<Header>) {
    forall j, k :: 0 <= j < k < |hs| ==> hs[j].name != hs[k].name
  }

  /** Index of the header named `name`, or -1. */
  function Position(hs: seq<Header>, name: string): (i: int)
    ensures -1 <= i < |hs|
    ensures i >= 0 ==> hs[i].name == name
    ensures i < 0 <==> forall k :: 0 <= k < |hs| ==> hs[k].name != name
    decreases |hs|
  {
    if |hs| == 0 then -1
    else if hs[0].name == name then 0
    else
      var j := Position(hs[1..], name);
      if j < 0 then -1 else j + 1
  }

  /** `headerObj[h.name] = h.value`: an existing name keeps its place and takes
      the new value; a new name is appended; nothing else changes. */
  function Put(hs: seq<Header>, h: Header): (r: seq<Header>)
    ensures DistinctNames(hs) ==> DistinctNames(r)
    ensures |hs| <= |r| <= |hs| + 1
    ensures |r| == |hs| <==> exists k :: 0 <= k < |hs| && hs[k].name == h.name
    ensures |r| == |hs| + 1 ==> r[|hs|] == h
    ensures forall k :: 0 <= k < |hs| ==> r[k].name == hs[k].name
    ensures forall k :: 0 <= k < |hs| && hs[k].name != h.name ==> r[k] == hs[k]
    ensures h in r
  {
    var i := Position(hs, h.name);
    if i >= 0 then hs[i := h] else hs + [h]
  }

  /** The header object read as a map from name to value: later entries win. */
  function AsMap(hs: seq<Header>): map<string, string>
    decreases |hs|
  {
    if |hs| == 0 then map[]
    else AsMap(hs[..|hs| - 1])[hs[|hs| - 1].name := hs[|hs| - 1].value]
  }

  lemma {:induction false} AsMapKeys(hs: seq<Header>, name: string)
    ensures name in AsMap(hs) <==> exists k :: 0 <= k < |hs| && hs[k].name == name
    decreases |hs|
  {
    if |hs| > 0 {
      var init := hs[..|hs| - 1];
      AsMapKeys(init, name);
      if exists k :: 0 <= k < |init| && init[k].name == name {
        var k :| 0 <= k < |init| && init[k].name == name;
        assert hs[k].name == name;
      }
      if exists k :: 0 <= k < |hs| && hs[k].name == name {
        var k :| 0 <= k < |hs| && hs[k].name == name;
        if k < |init| {
          assert init[k].name == name;
        }
      }
    }
  }

  /** Overwriting one entry of a header object without duplicate names is a
      single map update. */
  lemma {:induction false} AsMapOverwrite(hs: seq<Header>, i: int, h: Header)
    requires DistinctNames(hs)
    requires 0 <= i < |hs| && hs[i].name == h.name
    ensures AsMap(hs[i := h]) == AsMap(hs)[h.name := h.value]
    decreases |hs|
  {
    var n := |hs| - 1;
    var init := hs[..n];
    var last := hs[n];
    if i < n {
      assert hs[i := h][..n] == init[i := h];
      assert last.name != h.name;
      calc {
        AsMap(hs[i := h]);
        AsMap(init[i := h])[last.name := last.value];
        { AsMapOverwrite(init, i, h); }
        AsMap(init)[h.name := h.value][last.name := last.value];
        AsMap(init)[last.name := last.value][h.name := h.value];
        AsMap(hs)[h.name := h.value];
      }
    } else {
      assert hs[i := h][..n] == init;
    }
  }

  lemma AsMapAppend(hs: seq<Header>, h: Header)
    ensures AsMap(hs + [h]) == AsMap(hs)[h.name := h.value]
  {
    assert (hs + [h])[..|hs|] == hs;
  }

  /** Assignment into the header object is map update. */
  lemma AsMapPut(hs: seq<Header>, h: Header)
    requires DistinctNames(hs)
    ensures AsMap(Put(hs, h)) == AsMap(hs)[h.name := h.value]
  {
    var i := Position(hs, h.name);
    if i >= 0 {
      assert Put(hs, h) == hs[i := h];
      AsMapOverwrite(hs, i, h);
    } else {
      assert Put(hs, h) == hs + [h];
      AsMapAppend(hs, h);
    }
  }

  /** The `forEach` over the kept lines, building the header object.  The
      object never repeats a name and, read as a map, is the reference
      name-to-value map of its lines (`HeaderMap`, defined below). */
  function Collect(lines: seq<string>): (r: seq<Header>)
    ensures DistinctNames(r)
    ensures AsMap(r) == HeaderMap(lines)
    decreases |lines|
  {
    if |lines| == 0 then []
    else
      var hs := Collect(lines[..|lines| - 1]);
      match ParseHeaderLine(lines[|lines| - 1])
      case Some(h) => AsMapPut(hs, h); Put(hs, h)
      case None => hs
  }

  /** The reference meaning of the header field: a name-to-value map where each
      parsed line assigns its name and a later line overrides an earlier one. */
  function HeaderMap(lines: seq<string>): map<string, string>
    decreases |lines|
  {
    if |lines| == 0 then map[]
    else
      var m := HeaderMap(lines[..|lines| - 1]);
      match ParseHeaderLine(lines[|lines| - 1])
      case Some(h) => m[h.name := h.value]
      case None => m
  }

  /** The filter's test: the trimmed line is a non-empty (truthy) string. */
  predicate NotBlank(line: string) {
    |Trim(line)| > 0
  }

  /** `filter(h => h.trim())`: exactly the lines that are not blank;
      `NonBlankConcat` says they stay in order. */
  function NonBlank(lines: seq<string>): (r: seq<string>)
    ensures |r| <= |lines|
    ensures forall j :: 0 <= j < |r| ==> NotBlank(r[j]) && r[j] in lines
    ensures forall k :: 0 <= k < |lines| && NotBlank(lines[k]) ==> lines[k] in r
  {
    Seqs.Filter(lines, NotBlank)
  }

  /** The filter works line by line: filtering a concatenation is the
      concatenation of the filtered parts, and one line is kept exactly when
      it is not blank.  Together these fix the order of the kept lines. */
  lemma NonBlankConcat(a: seq<string>, b: seq<string>)
    ensures NonBlank(a + b) == NonBlank(a) + NonBlank(b)
    ensures forall l :: NonBlank([l]) == if NotBlank(l) then [l] else []
  {
    Seqs.FilterConcat(a, b, NotBlank);
    forall l ensures NonBlank([l]) == if NotBlank(l) then [l] else [] {
      Seqs.FilterSingle(l, NotBlank);
    }
  }

  /** The header object of the whole field: split into lines, drop the blank
      ones, and assign each parsed line in order. */
  function ParseHeaders(text: string): (hs: seq<Header>)
    ensures DistinctNames(hs)
    ensures AsMap(hs) == HeaderMap(Split(text, '\n'))
  {
    BlankFilterRedundant(Split(text, '\n'));
    Collect(NonBlank(Split(text, '\n')))
  }

  /** Dropping blank lines first changes nothing, because a blank line never
      parses: the filter only saves work. */
  lemma {:induction false} BlankFilterRedundant(lines: seq<string>)
    ensures Collect(NonBlank(lines)) == Collect(lines)
    decreases |lines|
  {
    if |lines| > 0 {
      var init := lines[..|lines| - 1];
      var l := lines[|lines| - 1];
      BlankFilterRedundant(init);
      Seqs.Snoc(lines);
      NonBlankConcat(init, [l]);
      if NotBlank(l) {
        Seqs.SnocParts(NonBlank(init), l);
      } else {
        assert NonBlank(init) + [] == NonBlank(init);
        BlankLineNeverParses(l);
      }
    }
  }

  lemma CollectSnoc(lines: seq<string>, line: string, h: Header)
    requires ParseHeaderLine(line) == Some(h)
    ensures Collect(lines + [line]) == Put(Collect(lines), h)
  {
    var ls := lines + [line];
    assert ls[..|ls| - 1] == lines;
  }

  /** A later line repeating a name overwrites the value but the name keeps
      the position of its first appearance. */
  lemma LaterDuplicateOverwrites(lines: seq<string>, line: string, h: Header)
    requires ParseHeaderLine(line) == Some(h)
    requires Position(Collect(lines), h.name) >= 0
    ensures var before := Collect(lines);
            var after := Collect(lines + [line]);
            && |after| == |before|
            && after == before[Position(before, h.name) := h]
  {
    var before := Collect(lines);
    CollectSnoc(lines, line, h);
    assert Put(before, h) == before[Position(before, h.name) := h];
  }

  /** The request URL: the base URL followed by the endpoint. */
  function FullUrl(baseUrl: string, endpoint: string): (u: string)
    ensures |u| == |baseUrl| + |endpoint|
    ensures u[..|baseUrl|] == baseUrl && u[|baseUrl|..] == endpoint
  {
    baseUrl + endpoint
  }

  /** The line continuation between curl arguments. */
  const CurlBreak: string := " \\\n  "

  function CurlHeaderFlag(h: Header): string {
    "-H \"" + h.name + ": " + h.value + "\""
  }

  function CurlFlags(hs: seq<Header>): string {
    Join(seq(|hs|, k requires 0 <= k < |hs| => CurlHeaderFlag(hs[k])), CurlBreak)
  }

  /** The request line and header flags every curl sample starts with. */
  function CurlRequest(m: HttpMethod, url: string, hs: seq<Header>): string {
    "curl -X " + MethodName(m) + " \"" + url + "\"" + CurlBreak + CurlFlags(hs)
  }

  /** The body as curl's `-d` argument shows it: every newline becomes a space. */
  function FlattenBody(body: string): (f: string)
    ensures |f| == |body| && '\n' !in f
    ensures forall k :: 0 <= k < |body| && body[k] != '\n' ==> f[k] == body[k]
    ensures forall k :: 0 <= k < |body| && body[k] == '\n' ==> f[k] == ' '
  {
    ReplaceChar(body, '\n', ' ')
  }

  /** The `-d` argument: the flattened body in single quotes. */
  function CurlData(body: string): string {
    "-d '" + FlattenBody(body) + "'"
  }

  /** The curl sample: a GET sample is just the request line with the header
      flags; any other method adds a `-d` argument holding the flattened body,
      which then sits right before the closing quote. */
  function CurlCode(m: HttpMethod, url: string, hs: seq<Header>, body: string): (c: string)
    ensures CurlRequest(m, url, hs) <= c
    ensures m == GET <==> |c| == |CurlRequest(m, url, hs)|
    ensures m != GET ==> |c| > |body| && c[|c| - 1 - |body|..|c| - 1] == FlattenBody(body) && c[|c| - 1] == '\''
  {
    if m == GET then CurlRequest(GET, url, hs)
    else CurlRequest(m, url, hs) + CurlBreak + CurlData(body)
  }

  /** A GET sample does not depend on the body at all. */
  lemma CurlGetIgnoresBody(url: string, hs: seq<Header>, b1: string, b2: string)
    ensures CurlCode(GET, url, hs, b1) == CurlCode(GET, url, hs, b2)
  {
  }

  /** Any other sample shows the flattened body as its `-d` argument. */
  lemma CurlShowsBody(m: HttpMethod, url: string, hs: seq<Header>, body: string)
    requires m != GET
    ensures Contains(CurlCode(m, url, hs, body), "-d '" + FlattenBody(body) + "'")
  {
    var pre := CurlRequest(m, url, hs) + CurlBreak;
    ContainsMiddle(pre, CurlData(body), []);
    assert pre + CurlData(body) + [] == CurlCode(m, url, hs, body);
  }

  /** Two bodies give the same non-GET sample only when they agree up to
      newlines-as-spaces: the sample loses nothing else. */
  lemma CurlBodyRecoverable(m: HttpMethod, url: string, hs: seq<Header>, b1: string, b2: string)
    requires m != GET
    requires CurlCode(m, url, hs, b1) == CurlCode(m, url, hs, b2)
    ensures FlattenBody(b1) == FlattenBody(b2)
  {
    var pre := CurlRequest(m, url, hs) + CurlBreak;
    var c1 := CurlCode(m, url, hs, b1);
    assert c1 == pre + CurlData(b1);
    assert CurlData(b1) == CurlData(b2) by {
      assert CurlData(b1) == c1[|pre|..];
    }
    assert FlattenBody(b1) == CurlData(b1)[4..|CurlData(b1)| - 1];
  }

  function PythonHeaderLine(h: Header): string {
    "    '" + h.name + "': '" + h.value + "'"
  }

  function PythonHeaders(hs: seq<Header>): string {
    Join(seq(|hs|, k requires 0 <= k < |hs| => PythonHeaderLine(hs[k])), ",\n")
  }

  /** The name of the `requests` function a sample calls: written out as
      `get` for GET, the lower-cased method name otherwise; either way the
      lower-cased method name. */
  function PythonVerb(m: HttpMethod): (v: string)
    ensures v == Lower(MethodName(m))
    ensures m != GET ==> v != "get"
  {
    if m == GET then
      assert Lower("GET") == "get" by {
        assert Lower("GET")[0] == 'g' && Lower("GET")[1] == 'e' && Lower("GET")[2] == 't';
      }
      "get"
    else
      assert Lower(MethodName(m))[0] == LowerChar(MethodName(m)[0]) != 'g';
      Lower(MethodName(m))
  }

  /** The statement binding the request body, verbatim, to `data`. */
  function DataLine(body: string): string {
    "data = " + body + "\n"
  }

  const PythonImport: string := "import requests\n"

  /** Everything before the call: the imports, the header dictionary and, for
      a method other than GET, the `data` binding. */
  function PythonSetup(m: HttpMethod, hs: seq<Header>, body: string): string {
    PythonImport + if m == GET then
      "\nheaders = {\n" + PythonHeaders(hs) + "\n}\n\nresponse = "
    else
      var head := "import json\n\nheaders = {\n" + PythonHeaders(hs) + "\n}\n\n";
      head + DataLine(body) + "\nresponse = "
  }

  function PythonCall(m: HttpMethod, url: string): string {
    "requests." + PythonVerb(m) + "('" + url + "'"
  }

  /** The closing arguments and the print: only a call with a body passes
      `json=data`. */
  const GetTail: string := ", headers=headers)\nprint(response.json())"
  const BodyTail: string := ", headers=headers, json=data)\nprint(response.json())"

  function PythonEnd(m: HttpMethod): string {
    if m == GET then GetTail else BodyTail
  }

  /** The Python sample: the setup, the call, and the closing arguments and
      print; only a non-GET call passes `json=data`. */
  function PythonCode(m: HttpMethod, url: string, hs: seq<Header>, body: string): (c: string)
    ensures PythonImport <= c
    ensures m == GET ==> |GetTail| <= |c| && c[|c| - |GetTail|..] == GetTail
    ensures m != GET ==> |BodyTail| <= |c| && c[|c| - |BodyTail|..] == BodyTail
  {
    var setup := PythonSetup(m, hs, body);
    Seqs.Framed(setup, PythonCall(m, url), PythonEnd(m));
    Seqs.Framed(PythonImport, setup[|PythonImport|..], []);
    assert setup == PythonImport + setup[|PythonImport|..] + [];
    PythonSetup(m, hs, body) + PythonCall(m, url) + PythonEnd(m)
  }

  /** Every Python sample calls the `requests` function named by the
      lower-cased method, on the full URL. */
  lemma PythonCallsLowerMethod(m: HttpMethod, url: string, hs: seq<Header>, body: string)
    ensures Contains(PythonCode(m, url, hs, body), "requests." + Lower(MethodName(m)) + "('" + url + "'")
  {
    ContainsMiddle(PythonSetup(m, hs, body), PythonCall(m, url), PythonEnd(m));
  }

  /** A non-GET Python sample carries the body verbatim; a GET sample does not
      depend on it. */
  lemma PythonBody(m: HttpMethod, url: string, hs: seq<Header>, body: string, other: string)
    ensures m != GET ==> Contains(PythonCode(m, url, hs, body), "data = " + body + "\n")
    ensures m == GET ==> PythonCode(m, url, hs, body) == PythonCode(m, url, hs, other)
  {
    if m != GET {
      var head := "import json\n\nheaders = {\n" + PythonHeaders(hs) + "\n}\n\n";
      ContainsMiddle(PythonImport + head, DataLine(body), "\nresponse = ");
      Seqs.Assoc(PythonImport, head, DataLine(body));
      Seqs.Assoc(PythonImport, head + DataLine(body), "\nresponse = ");
      ContainsAppend(PythonSetup(m, hs, body), DataLine(body), PythonCall(m, url));
      ContainsAppend(PythonSetup(m, hs, body) + PythonCall(m, url), DataLine(body), PythonEnd(m));
    }
  }

  datatype RequestOptions = RequestOptions(verb: HttpMethod, headers: seq<Header>, body: Option<string>)

  datatype Request = Request(url: string, options: RequestOptions)

  /** What the send button prepares: the full URL, the method, the parsed
      header object, and a body only for a non-GET method with a non-empty
      body text. */
  function BuildRequest(m: HttpMethod, headerText: string, body: string, baseUrl: string, endpoint: string): (r: Request)
    ensures r.url == FullUrl(baseUrl, endpoint)
    ensures r.options.verb == m
    ensures r.options.body.Some? <==> m != GET && body != []
    ensures r.options.body.Some? ==> r.options.body.value == body
    ensures DistinctNames(r.options.headers)
    ensures AsMap(r.options.headers) == HeaderMap(Split(headerText, '\n'))
  {
    var opts := RequestOptions(m, ParseHeaders(headerText), None);
    Request(FullUrl(baseUrl, endpoint), if m != GET && body != [] then opts.(body := Some(body)) else opts)
  }
}
