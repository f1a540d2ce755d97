/**
 * tune2fs -l: the daemon runs "/sbin/tune2fs -l device" and turns the
 * "key: value" lines it prints into a flat list key0, value0, key1, value1, ...
 */
module Tune2fsListing {
  import opened Outcome
  import opened CText

  /** The version banner tune2fs may print on its first line. */
  const Banner := "tune2fs "

  /** What tune2fs prints for a field that has no value; these become "". */
  predicate IsPlaceholder(v: string) {
    v == "<none>" || v == "<not available>" || v == "(none)"
  }

  /** The value as the listing shows it: a placeholder becomes "". */
  function Shown(v: string): string {
    if IsPlaceholder(v) then "" else v
  }

  /** A value is shown as itself, or as "" exactly when it is empty or a placeholder. */
  lemma ShownValue(v: string)
    ensures Shown(v) == "" || Shown(v) == v
    ensures Shown(v) == "" <==> v == "" || IsPlaceholder(v)
  {
  }

  /** The value part of a line: the text after the colon with leading whitespace skipped. */
  function ValueOf(afterColon: string): (v: string)
    ensures |v| <= |afterColon|
  {
    afterColon[Span(afterColon, IsSpace)..]
  }

  /** The value is what follows the colon once the blanks after it are dropped, and only blanks are dropped. */
  lemma ValueSkipsBlanks(afterColon: string)
    ensures var v := ValueOf(afterColon);
            v == afterColon[|afterColon| - |v|..] &&
            (forall k :: 0 <= k < |afterColon| - |v| ==> IsSpace(afterColon[k])) &&
            (v != [] ==> !IsSpace(v[0]))
  {
    SpanLongest(afterColon, IsSpace);
  }

  /** The key and the value one non-empty line contributes. */
  function Entry(line: string): (kv: seq<string>)
    ensures |kv| == 2
  {
    var c := IndexOf(line, ':');
    if c < |line| then
      [line[..c], Shown(ValueOf(line[c + 1..]))]
    else
      [line, ""]
  }

  /**
   * The pairs of the lines of `s`, in order, up to the first empty line (which,
   * like the end of the text, ends the listing).
   */
  function ParseBody(s: string): (kvs: seq<string>)
    decreases |s|
  {
    var e := IndexOf(s, '\n');
    if e == 0 then []
    else Entry(s[..e]) + (if e < |s| then ParseBody(s[e + 1..]) else [])
  }

  /** Nothing is read from an empty text or from one that starts with an empty line; every other text gives a pair. */
  lemma ParseBodyEmpty(s: string)
    ensures ParseBody(s) == [] <==> s == [] || s[0] == '\n'
  {
  }

  /** One step of ParseBody at a non-empty first line that ends at `e`. */
  lemma ParseBodyCons(s: string, e: nat, line: string, rest: string)
    requires e == IndexOf(s, '\n') && e > 0 && line == s[..e]
    requires e < |s| ==> rest == s[e + 1..]
    ensures e < |s| ==> ParseBody(s) == Entry(line) + ParseBody(rest)
    ensures e == |s| ==> ParseBody(s) == Entry(line)
  {
  }

  /** How much one step of ParseBody adds: nothing at an empty line, one pair per other line. */
  lemma ParseBodyLength(s: string, e: nat)
    requires e == IndexOf(s, '\n')
    ensures |ParseBody(s)| == if e == 0 then 0 else 2 + (if e < |s| then |ParseBody(s[e + 1..])| else 0)
  {
    if e > 0 {
      ParseBodyCons(s, e, s[..e], if e < |s| then s[e + 1..] else []);
    }
  }

  lemma EvenStep(a: nat, b: nat)
    requires b % 2 == 0 && (a == 0 || a == 2 || a == b + 2)
    ensures a % 2 == 0
  {
  }

  /** Every line that is read adds exactly one key and one value. */
  lemma {:induction false} ParseBodyEven(s: string)
    ensures |ParseBody(s)| % 2 == 0
    decreases |s|
  {
    var e := IndexOf(s, '\n');
    ParseBodyLength(s, e);
    var n := 0;
    if 0 < e < |s| {
      ParseBodyEven(s[e + 1..]);
      n := |ParseBody(s[e + 1..])|;
    }
    EvenStep(|ParseBody(s)|, n);
  }

  /**
   * The listing of the text tune2fs printed: the pairs of its lines, after the
   * first line when that is the banner (which must end with a newline).
   */
  function ListingOf(s: string): (r: Reply<seq<string>>)
    ensures r.Ok? || r == Err(TruncatedOutput)
    ensures r.Ok? ==> |r.value| % 2 == 0
    ensures r == Err(TruncatedOutput) <==> Banner <= s && '\n' !in s
    ensures !(Banner <= s) ==> r == Ok(ParseBody(s))
  {
    if Banner <= s then
      var nl := IndexOf(s, '\n');
      IndexOfFirst(s, '\n');
      if nl < |s| then ParseBodyEven(s[nl + 1..]); Ok(ParseBody(s[nl + 1..])) else Err(TruncatedOutput)
    else
      ParseBodyEven(s); Ok(ParseBody(s))
  }

  /** The result of do_tune2fs_l for one run of tune2fs -l: the listing of what it printed up to a NUL. */
  function Listing(run: ToolRun): (r: Reply<seq<string>>)
    ensures run.Failed? ==> r == Err(ToolFailed(run.stderr))
    ensures r.Ok? ==> run.Succeeded? && |r.value| % 2 == 0
    ensures r.Err? ==> r.error.ToolFailed? || r.error == TruncatedOutput
  {
    match run
    case Failed(err) => Err(ToolFailed(err))
    case Succeeded(out) => ListingOf(CStr(out))
  }

  /** Output without a NUL in it is read whole. */
  lemma ListingOfText(out: string)
    requires '\0' !in out
    ensures Listing(Succeeded(out)) == ListingOf(out)
  {
    NoNulCStr(out);
  }

  // ----- The listing, line by line -----

  /** The lines `ls` joined with newlines. */
  function JoinLines(ls: seq<string>): string {
    if |ls| == 0 then []
    else if |ls| == 1 then ls[0]
    else ls[0] + "\n" + JoinLines(ls[1..])
  }

  /** The pairs of the lines before the first empty one. */
  function EntriesUntilBlank(ls: seq<string>): seq<string> {
    if ls == [] || ls[0] == [] then [] else Entry(ls[0]) + EntriesUntilBlank(ls[1..])
  }

  predicate NoNewlines(ls: seq<string>) {
    forall i :: 0 <= i < |ls| ==> '\n' !in ls[i]
  }

  /** Parsing text made of lines is taking each line's pair, up to the first empty line. */
  lemma {:induction false} ParseBodyByLines(ls: seq<string>)
    requires NoNewlines(ls)
    ensures ParseBody(JoinLines(ls)) == EntriesUntilBlank(ls)
  {
    if |ls| == 0 {
    } else if |ls| == 1 {
      IndexOfIs(ls[0], '\n', |ls[0]|);
      assert ls[0][..|ls[0]|] == ls[0];
      assert ls[1..] == [];
    } else {
      var s := JoinLines(ls);
      assert s == ls[0] + "\n" + JoinLines(ls[1..]);
      IndexOfIs(s, '\n', |ls[0]|);
      assert s[..|ls[0]|] == ls[0];
      assert s[|ls[0]| + 1..] == JoinLines(ls[1..]);
      if ls[0] != [] {
        ParseBodyByLines(ls[1..]);
      }
    }
  }

  /** Everything after the first empty line contributes nothing. */
  lemma {:induction false} ParseStopsAtBlankLine(ls: seq<string>, k: nat)
    requires NoNewlines(ls)
    requires k < |ls| && ls[k] == []
    ensures ParseBody(JoinLines(ls)) == ParseBody(JoinLines(ls[..k]))
  {
    ParseBodyByLines(ls);
    ParseBodyByLines(ls[..k]);
    EntriesUntilBlankStops(ls, k);
  }

  lemma {:induction false} EntriesUntilBlankStops(ls: seq<string>, k: nat)
    requires k < |ls| && ls[k] == []
    ensures EntriesUntilBlank(ls) == EntriesUntilBlank(ls[..k])
  {
    if k > 0 && ls[0] != [] {
      assert ls[1..][..k - 1] == ls[..k][1..];
      EntriesUntilBlankStops(ls[1..], k - 1);
    }
  }

  /** Without empty lines, line i gives entries 2i and 2i+1, and nothing else is produced. */
  lemma ParseEveryLine(ls: seq<string>)
    requires NoNewlines(ls)
    requires forall i :: 0 <= i < |ls| ==> ls[i] != []
    ensures |ParseBody(JoinLines(ls))| == 2 * |ls|
    ensures forall i :: 0 <= i < |ls| ==>
              ParseBody(JoinLines(ls))[2 * i] == Entry(ls[i])[0] &&
              ParseBody(JoinLines(ls))[2 * i + 1] == Entry(ls[i])[1]
  {
    ParseBodyByLines(ls);
    EntriesLength(ls);
    forall i | 0 <= i < |ls|
      ensures EntriesUntilBlank(ls)[2 * i] == Entry(ls[i])[0]
      ensures EntriesUntilBlank(ls)[2 * i + 1] == Entry(ls[i])[1]
    {
      EntriesAt(ls, i);
    }
  }

  lemma {:induction false} EntriesLength(ls: seq<string>)
    requires forall i :: 0 <= i < |ls| ==> ls[i] != []
    ensures |EntriesUntilBlank(ls)| == 2 * |ls|
  {
    if ls != [] {
      EntriesLength(ls[1..]);
    }
  }

  lemma {:induction false} EntriesAt(ls: seq<string>, i: nat)
    requires forall j :: 0 <= j < |ls| ==> ls[j] != []
    requires i < |ls|
    ensures 2 * i + 1 < |EntriesUntilBlank(ls)|
    ensures EntriesUntilBlank(ls)[2 * i] == Entry(ls[i])[0]
    ensures EntriesUntilBlank(ls)[2 * i + 1] == Entry(ls[i])[1]
  {
    EntriesLength(ls);
    EntriesCons(ls);
    if i > 0 {
      EntriesAt(ls[1..], i - 1);
      assert ls[1..][i - 1] == ls[i];
      PairAfterHead(Entry(ls[0]), EntriesUntilBlank(ls[1..]), i);
    }
  }

  lemma EntriesCons(ls: seq<string>)
    requires ls != [] && ls[0] != []
    ensures EntriesUntilBlank(ls) == Entry(ls[0]) + EntriesUntilBlank(ls[1..])
  {
  }

  /** Past a two-element head, pair i of the whole is pair i - 1 of the rest. */
  lemma PairAfterHead(head: seq<string>, rest: seq<string>, i: nat)
    requires |head| == 2 && 0 < i && 2 * i - 1 < |rest|
    ensures (head + rest)[2 * i] == rest[2 * (i - 1)]
    ensures (head + rest)[2 * i + 1] == rest[2 * (i - 1) + 1]
  {
  }

  // ----- One line -----

  /**
   * A line "key:<whitespace>value" gives the key before the first colon and
   * the value with its leading whitespace dropped and the rest left as it is;
   * a placeholder value gives "".
   */
  lemma EntryOfKeyValue(key: string, ws: string, value: string)
    requires ':' !in key
    requires forall k :: 0 <= k < |ws| ==> IsSpace(ws[k])
    requires value != [] ==> !IsSpace(value[0])
    ensures Entry(key + ":" + ws + value) == [key, if IsPlaceholder(value) then "" else value]
  {
    var line := key + ":" + ws + value;
    IndexOfIs(line, ':', |key|);
    assert line[..|key|] == key;
    var after := line[|key| + 1..];
    assert after == ws + value;
    SpanIs(after, IsSpace, |ws|);
    assert after[|ws|..] == value;
  }

  /** The pair of a line whose first colon is at `c`, followed by `w` whitespace characters. */
  lemma EntryParts(line: string, c: nat, w: nat)
    requires c < |line| && IndexOf(line, ':') == c
    requires c + 1 + w <= |line|
    requires Span(line[c + 1..], IsSpace) == w
    ensures Entry(line) == [line[..c], Shown(line[c + 1 + w..])]
  {
    ValueAt(line, c, w);
  }

  lemma ValueAt(line: string, c: nat, w: nat)
    requires c < |line| && c + 1 + w <= |line|
    requires Span(line[c + 1..], IsSpace) == w
    ensures ValueOf(line[c + 1..]) == line[c + 1 + w..]
  {
    assert line[c + 1..][w..] == line[c + 1 + w..];
  }

  /** A line without a colon is a key with an empty value. */
  lemma EntryWithoutColon(line: string)
    requires ':' !in line
    ensures Entry(line) == [line, ""]
  {
    IndexOfIs(line, ':', |line|);
  }

  /** The banner line is dropped and the lines after it are parsed. */
  lemma BannerDiscarded(rest: string, body: string)
    requires '\n' !in rest
    ensures ListingOf(Banner + rest + "\n" + body) == Ok(ParseBody(body))
  {
    var first := Banner + rest;
    assert '\n' !in first;
    assert Banner <= first + "\n" + body;
    FirstNewline(first, body);
  }

  lemma FirstNewline(first: string, body: string)
    requires '\n' !in first
    ensures IndexOf(first + "\n" + body, '\n') == |first|
    ensures (first + "\n" + body)[|first| + 1..] == body
  {
    var out := first + "\n" + body;
    forall k | 0 <= k < |first| ensures out[k] != '\n' {
      assert out[k] == first[k];
    }
    IndexOfIs(out, '\n', |first|);
  }

  lemma {:induction false} NoNulCStr(s: string)
    requires '\0' !in s
    ensures CStr(s) == s
  {
    if s != [] {
      assert '\0' !in s[1..];
      NoNulCStr(s[1..]);
    }
  }

  // ----- The daemon's loop -----

  /**
   * One line, held NUL-terminated in buf[p..eol]: cut it at the first colon (a
   * NUL goes where the colon was), skip whitespace after it, and produce the
   * key and the value.
   */
  method SplitLine(buf: array<char>, p: nat, eol: nat, ghost line: string) returns (kv: seq<string>)
    requires p < eol < buf.Length && buf[eol] == '\0' && buf[buf.Length - 1] == '\0'
    requires buf[p..eol] == line && '\0' !in line
    modifies buf
    ensures kv == Entry(line)
    ensures forall k :: 0 <= k < buf.Length && !(p <= k < eol) ==> buf[k] == old(buf[k])
  {
    var colon := Strchrnul(buf, p, ':');
    ColonFound(buf, line, p, colon, eol);
    if buf[colon] == ':' {
      kv := SplitAtColon(buf, p, colon, eol, line);
    } else {
      kv := [buf[p..eol], ""];
    }
  }

  /**
   * A line with its first colon at `colon`: a NUL goes where the colon was,
   * the whitespace after it is skipped (the daemon's do-while loop), and the
   * key and the value, or "" for a placeholder, are produced.
   */
  method SplitAtColon(buf: array<char>, p: nat, colon: nat, eol: nat, ghost line: string) returns (kv: seq<string>)
    requires p <= colon < eol < buf.Length && buf[eol] == '\0'
    requires buf[p..eol] == line && '\0' !in line
    requires IndexOf(line, ':') == colon - p
    modifies buf
    ensures kv == Entry(line)
    ensures forall k :: 0 <= k < buf.Length && k != colon ==> buf[k] == old(buf[k])
  {
    ghost var c := colon - p;
    assert forall k :: p <= k < eol ==> buf[k] == line[k - p];
    buf[colon] := '\0';
    var v := SkipBlanks(buf, colon, eol);
    var key := buf[p..colon];
    var value := buf[v..eol];
    ghost var w := v - colon - 1;
    assert key == line[..c];
    assert value == line[c + 1 + w..];
    assert forall k :: c < k < c + 1 + w ==> line[k] == buf[p + k];
    assert v < eol ==> buf[v] == line[c + 1 + w] && buf[v] != '\0';
    EntryOfSplit(line, c, w);
    if IsPlaceholder(value) {
      kv := [key, ""];
    } else {
      kv := [key, value];
    }
  }

  /** do { colon++; } while (*colon && c_isspace (*colon)): the end of the blanks after the colon. */
  method SkipBlanks(buf: array<char>, colon: nat, eol: nat) returns (v: nat)
    requires colon < eol < buf.Length && buf[eol] == '\0'
    ensures colon < v <= eol
    ensures forall k :: colon < k < v ==> IsSpace(buf[k])
    ensures v < eol && buf[v] != '\0' ==> !IsSpace(buf[v])
  {
    v := colon + 1;
    while buf[v] != '\0' && IsSpace(buf[v])
      invariant colon < v <= eol
      invariant forall k :: colon < k < v ==> IsSpace(buf[k])
      decreases eol - v
    {
      v := v + 1;
    }
  }

  /** Where strchrnul stopped in the buffer is where IndexOf stops in the line. */
  lemma ColonFound(buf: array<char>, line: string, p: nat, colon: nat, eol: nat)
    requires p <= colon < buf.Length && p < eol < buf.Length && buf[eol] == '\0'
    requires buf[p..eol] == line && '\0' !in line
    requires buf[colon] == ':' || buf[colon] == '\0'
    requires forall k :: p <= k < colon ==> buf[k] != ':' && buf[k] != '\0'
    ensures colon <= eol
    ensures buf[colon] == ':' <==> colon < eol
    ensures IndexOf(line, ':') == colon - p
  {
    assert forall k :: p <= k < eol ==> buf[k] == line[k - p];
    if colon < eol {
      assert line[colon - p] != '\0';
    }
    IndexOfIs(line, ':', colon - p);
  }

  /** The pair of a line whose first colon is at `c` and whose value starts after `w` blanks. */
  lemma EntryOfSplit(line: string, c: nat, w: nat)
    requires c < |line| && IndexOf(line, ':') == c
    requires c + 1 + w <= |line|
    requires forall k :: c < k < c + 1 + w ==> IsSpace(line[k])
    requires c + 1 + w < |line| ==> !IsSpace(line[c + 1 + w])
    ensures Entry(line) == [line[..c], Shown(line[c + 1 + w..])]
  {
    SpanAfterColon(line, c, w);
    EntryParts(line, c, w);
  }

  lemma SpanAfterColon(line: string, c: nat, w: nat)
    requires c < |line| && c + 1 + w <= |line|
    requires forall k :: c < k < c + 1 + w ==> IsSpace(line[k])
    requires c + 1 + w < |line| ==> !IsSpace(line[c + 1 + w])
    ensures Span(line[c + 1..], IsSpace) == w
  {
    var after := line[c + 1..];
    assert forall k :: 0 <= k < w ==> after[k] == line[c + 1 + k];
    SpanIs(after, IsSpace, w);
  }

  /** ParseBody takes the first line's pair and continues after its newline. */
  lemma ParseBodyStep(s: string, p: nat, eol: nat)
    requires p < eol <= |s|
    requires forall k :: p <= k < eol ==> s[k] != '\n'
    requires eol < |s| ==> s[eol] == '\n'
    ensures eol < |s| ==> ParseBody(s[p..]) == Entry(s[p..eol]) + ParseBody(s[eol + 1..])
    ensures eol == |s| ==> ParseBody(s[p..]) == Entry(s[p..eol])
  {
    LineEndInSlice(s, p, eol);
    ParseBodyCons(s[p..], eol - p, s[p..eol], if eol < |s| then s[eol + 1..] else []);
  }

  /** In the text from `p` on, the line ends at `eol`; before it is the line, after it the rest. */
  lemma LineEndInSlice(s: string, p: nat, eol: nat)
    requires p <= eol <= |s|
    requires forall k :: p <= k < eol ==> s[k] != '\n'
    requires eol < |s| ==> s[eol] == '\n'
    ensures IndexOf(s[p..], '\n') == eol - p
    ensures s[p..][..eol - p] == s[p..eol]
    ensures eol < |s| ==> s[p..][eol - p + 1..] == s[eol + 1..]
  {
    var t := s[p..];
    assert forall k :: 0 <= k < |t| ==> t[k] == s[p + k];
    IndexOfIs(t, '\n', eol - p);
  }

  /** An empty first line, or no text at all, ends the listing. */
  lemma ParseBodyBlank(s: string, p: nat)
    requires p <= |s| && (p < |s| ==> s[p] == '\n')
    ensures ParseBody(s[p..]) == []
  {
    IndexOfIs(s[p..], '\n', 0);
  }

  /**
   * The start of one pass of the daemon's loop: find the end of the line that
   * starts at `p` and, when it ends with a newline, overwrite the newline with
   * a NUL. `eol` is where the line ends and `pend` where the next one starts;
   * an empty line leaves a NUL at `p`, and nothing more is parsed from there.
   */
  method CutLine(buf: array<char>, p: nat, ghost s: string) returns (eol: nat, pend: nat)
    requires p < |s| && buf.Length == |s| + 1 && buf[|s|] == '\0' && '\0' !in s
    requires forall k :: p <= k < |s| ==> buf[k] == s[k]
    modifies buf
    ensures p <= eol <= |s| && pend == if eol < |s| then eol + 1 else eol
    ensures forall k :: p <= k < eol ==> s[k] != '\n'
    ensures eol < |s| ==> s[eol] == '\n'
    ensures buf[eol] == '\0' && buf[p..eol] == s[p..eol] && buf[|s|] == '\0'
    ensures forall k :: eol < k < |s| ==> buf[k] == s[k]
    ensures buf[p] == '\0' <==> eol == p
    ensures buf[p] == '\0' ==> ParseBody(s[p..]) == []
  {
    eol := Strchrnul(buf, p, '\n');
    pend := eol;
    if buf[pend] == '\n' {
      buf[pend] := '\0';
      pend := pend + 1;
    }
    assert forall k :: 0 <= k < eol - p ==> buf[p..eol][k] == s[p..eol][k];
    if eol == p {
      ParseBodyBlank(s, p);
    }
  }

  /**
   * The pair of the non-empty line buf[p..eol] that CutLine has just cut: it is
   * what ParseBody takes before going on at `pend`, so appending it to what was
   * read before the line keeps the listing read so far a prefix of the whole.
   */
  method LineEntry(buf: array<char>, p: nat, eol: nat, pend: nat, ghost s: string,
                   ghost done: seq<string>, ghost whole: seq<string>) returns (kv: seq<string>)
    requires p < eol <= |s| && pend == (if eol < |s| then eol + 1 else eol)
    requires buf.Length == |s| + 1 && buf[|s|] == '\0' && '\0' !in s
    requires forall k :: p <= k < eol ==> s[k] != '\n'
    requires eol < |s| ==> s[eol] == '\n'
    requires buf[eol] == '\0' && buf[p..eol] == s[p..eol]
    requires forall k :: eol < k < |s| ==> buf[k] == s[k]
    requires done + ParseBody(s[p..]) == whole
    modifies buf
    ensures (done + kv) + ParseBody(s[pend..]) == whole
    ensures buf[|s|] == '\0'
    ensures forall k :: pend < k < |s| ==> buf[k] == s[k]
    ensures buf[pend] != '\0' ==> buf[pend] == s[pend]
    ensures buf[pend] == '\0' ==> ParseBody(s[pend..]) == []
  {
    ghost var line := s[p..eol];
    assert '\0' !in line;
    ParseBodyStep(s, p, eol);
    kv := SplitLine(buf, p, eol, line);
    if pend == |s| {
      ParseBodyBlank(s, pend);
      assert kv + ParseBody(s[pend..]) == kv;
    }
    assert ParseBody(s[p..]) == kv + ParseBody(s[pend..]);
    assert done + kv + ParseBody(s[pend..]) == done + (kv + ParseBody(s[pend..]));
  }

  /**
   * The daemon's loop over the lines of the NUL-terminated text in `buf`, from
   * `start` on: each line's newline is overwritten with a NUL, an empty line
   * leaves the cursor on that NUL (which ends the loop), and each other line
   * adds its key and its value.
   */
  method ReadLines(buf: array<char>, start: nat, ghost s: string) returns (ret: seq<string>)
    requires buf.Length == |s| + 1 && buf[..|s|] == s && buf[|s|] == '\0' && '\0' !in s
    requires start <= |s|
    modifies buf
    ensures ret == ParseBody(s[start..])
  {
    var p := start;
    ret := [];
    ghost var whole := ParseBody(s[start..]);
    ghost var rest := whole;
    ParseBodyBlank(s, |s|);
    while buf[p] != '\0'
      invariant p <= |s| && buf.Length == |s| + 1 && buf[|s|] == '\0'
      invariant forall k :: p < k < |s| ==> buf[k] == s[k]
      invariant buf[p] != '\0' ==> buf[p] == s[p]
      invariant rest == ParseBody(s[p..])
      invariant buf[p] == '\0' ==> rest == []
      invariant ret + rest == whole
      decreases |s| - p, buf[p] != '\0'
    {
      var eol, pend := CutLine(buf, p, s);
      if buf[p] == '\0' {
        // An empty line: the cursor stays on the NUL just written, which ends the loop.
        continue;
      }
      var kv := LineEntry(buf, p, eol, pend, s, ret, whole);
      rest := ParseBody(s[pend..]);
      ret := ret + kv;
      p := pend;
    }
  }

  /** do_tune2fs_l: the listing of one run of tune2fs -l. */
  method Tune2fsL(run: ToolRun) returns (r: Reply<seq<string>>)
    ensures r == Listing(run)
  {
    if run.Failed? {
      return Err(ToolFailed(run.stderr));
    }
    var s := CStr(run.stdout);
    var buf := OutputBuffer(s);
    r := ReadListing(buf, s);
  }

  /** The listing of the NUL-terminated text in `buf`: skip the banner, then read the lines. */
  method ReadListing(buf: array<char>, ghost s: string) returns (r: Reply<seq<string>>)
    requires buf.Length == |s| + 1 && buf[..|s|] == s && buf[|s|] == '\0' && '\0' !in s
    modifies buf
    ensures r == ListingOf(s)
  {
    var start := SkipBanner(buf, s);
    if start.Err? {
      return Err(start.error);
    }
    var ret := ReadLines(buf, start.value, s);
    r := Ok(ret);
  }

  /**
   * Where the listing starts: after the first line when the output starts
   * with the banner, which must then be followed by a newline.
   */
  method SkipBanner(buf: array<char>, ghost s: string) returns (start: Reply<nat>)
    requires buf.Length == |s| + 1 && buf[..|s|] == s && buf[|s|] == '\0' && '\0' !in s
    ensures start.Err? ==> start.error == TruncatedOutput && ListingOf(s) == Err(TruncatedOutput)
    ensures start.Ok? ==> start.value <= |s| && ListingOf(s) == Ok(ParseBody(s[start.value..]))
  {
    if buf.Length - 1 >= |Banner| && buf[..|Banner|] == Banner {
      assert Banner <= s;
      var nl := Strchrnul(buf, 0, '\n');
      assert forall k :: 0 <= k < nl ==> s[k] != '\n';
      if buf[nl] == '\0' {
        IndexOfIs(s, '\n', |s|);
        return Err(TruncatedOutput);
      }
      IndexOfIs(s, '\n', nl);
      return Ok(nl + 1);
    }
    assert !(Banner <= s);
    assert s[0..] == s;
    start := Ok(0);
  }
}
