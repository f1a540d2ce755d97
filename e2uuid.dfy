/**
 * get_e2uuid: the filesystem UUID is read from the listing of tune2fs -l,
 * which has a line "Filesystem UUID:   <uuid>".
 */
module E2Uuid {
  import opened Outcome
  import opened CText

  /** The text the daemon looks for; the newline makes it match at the start of a line. */
  const Marker := "\nFilesystem UUID:"

  /** A character that may appear in the UUID: a hexadecimal digit or '-'. */
  predicate IsUuidChar(c: char) {
    IsXDigit(c) || c == '-'
  }

  /**
   * The UUID in the text `t` that follows the marker: skip whitespace (which
   * may cross line ends), then take the longest run of UUID characters, which
   * must be followed by some other character before the text ends.
   */
  function UuidAfterMarker(t: string): (r: Reply<string>)
    ensures r.Ok? || r == Err(MalformedUuid)
    ensures r.Ok? ==> forall k :: 0 <= k < |r.value| ==> IsUuidChar(r.value[k])
  {
    var w := Span(t, IsSpace);
    if w == |t| then Err(MalformedUuid)
    else
      var u := Span(t[w..], IsUuidChar);
      SpanLongest(t[w..], IsUuidChar);
      if w + u == |t| then Err(MalformedUuid)
      else Ok(t[w..w + u])
  }

  /** The UUID in a listing: what follows the first marker, if there is one. */
  function UuidOf(s: string): (r: Reply<string>)
    ensures r == Err(NoFilesystemUuid) <==> forall j :: !OccursAt(s, Marker, j)
    ensures r.Ok? || r == Err(NoFilesystemUuid) || r == Err(MalformedUuid)
  {
    match Strstr(s, Marker)
    case None => Err(NoFilesystemUuid)
    case Some(i) => UuidAfterMarker(s[i + |Marker|..])
  }

  /** The result of do_get_e2uuid for one run of tune2fs -l. */
  function E2Uuid(run: ToolRun): (r: Reply<string>)
    ensures run.Failed? ==> r == Err(ToolFailed(run.stderr))
    ensures r.Ok? ==> run.Succeeded? && forall k :: 0 <= k < |r.value| ==> IsUuidChar(r.value[k])
    ensures r == Err(NoFilesystemUuid) <==> run.Succeeded? && Strstr(CStr(run.stdout), Marker).None?
    ensures r.Err? ==> r.error.ToolFailed? || r.error == NoFilesystemUuid || r.error == MalformedUuid
  {
    match run
    case Failed(err) => Err(ToolFailed(err))
    case Succeeded(out) => UuidOf(CStr(out))
  }

  /**
   * When the text after the marker is `w` whitespace characters, then `u` UUID
   * characters, then a character that ends the run, the UUID is those `u`
   * characters (none at all when the first character after the whitespace is
   * not a UUID character).
   */
  lemma UuidFound(t: string, w: nat, u: nat)
    requires w + u < |t|
    requires forall k :: 0 <= k < w ==> IsSpace(t[k])
    requires forall k :: w <= k < w + u ==> IsUuidChar(t[k])
    requires !IsUuidChar(t[w + u])
    requires u == 0 ==> !IsSpace(t[w])
    ensures UuidAfterMarker(t) == Ok(t[w..w + u])
  {
    assert !IsSpace(t[w]) by {
      if u > 0 {
        assert IsUuidChar(t[w]);
      }
    }
    SpanIs(t, IsSpace, w);
    var v := t[w..];
    assert forall k :: 0 <= k <= u ==> v[k] == t[w + k];
    SpanIs(v, IsUuidChar, u);
  }

  /**
   * When nothing but whitespace and then UUID characters follow the marker up
   * to the end of the text, the UUID is malformed.
   */
  lemma UuidRunsToEnd(t: string, w: nat)
    requires w <= |t|
    requires forall k :: 0 <= k < w ==> IsSpace(t[k])
    requires forall k :: w <= k < |t| ==> IsUuidChar(t[k])
    ensures UuidAfterMarker(t) == Err(MalformedUuid)
  {
    // Whitespace ends where the UUID characters begin: no character is both.
    if w < |t| {
      assert IsUuidChar(t[w]);
    }
    SpanIs(t, IsSpace, w);
    var v := t[w..];
    assert forall k :: 0 <= k < |v| ==> v[k] == t[w + k];
    SpanIs(v, IsUuidChar, |v|);
  }

  /** Only the first marker counts: the UUID is read after it. */
  lemma UuidAfterFirstMarker(s: string, i: nat)
    requires OccursAt(s, Marker, i)
    requires forall j :: 0 <= j < i ==> !OccursAt(s, Marker, j)
    ensures UuidOf(s) == UuidAfterMarker(s[i + |Marker|..])
  {
    match Strstr(s, Marker)
    case None =>
    case Some(f) =>
      assert !(f < i) && !(i < f);
  }

  // ----- The daemon's loops -----

  /**
   * do_get_e2uuid: find the marker, then read the UUID that follows it.
   */
  method GetE2uuid(run: ToolRun) returns (r: Reply<string>)
    ensures r == E2Uuid(run)
  {
    if run.Failed? {
      return Err(ToolFailed(run.stderr));
    }
    var s := CStr(run.stdout);
    var buf := OutputBuffer(s);
    var found := Strstr(s, Marker);
    if found.None? {
      return Err(NoFilesystemUuid);
    }
    r := ReadUuid(buf, found.value + |Marker|, s);
  }

  /**
   * Step over the whitespace from `start` on, then over the UUID characters,
   * and cut the text with a NUL where they end; either loop reaching the
   * terminating NUL is an error.
   */
  method ReadUuid(buf: array<char>, start: nat, ghost s: string) returns (r: Reply<string>)
    requires buf.Length == |s| + 1 && buf[..|s|] == s && buf[|s|] == '\0' && '\0' !in s
    requires start <= |s|
    modifies buf
    ensures r == UuidAfterMarker(s[start..])
  {
    assert forall k :: 0 <= k < |s| ==> buf[k] == s[k];
    var p := SkipSpace(buf, start, s);
    if buf[p] == '\0' {
      UuidLoops(s, start, p - start, 0);
      return Err(MalformedUuid);
    }
    var q := SkipUuidChars(buf, p, s);
    UuidLoops(s, start, p - start, q - p);
    if buf[q] == '\0' {
      return Err(MalformedUuid);
    }
    assert buf[p..q] == s[p..q];
    buf[q] := '\0';
    r := Ok(buf[p..q]);
  }

  /** The daemon's first loop: the end of the whitespace that starts at `from`. */
  method SkipSpace(buf: array<char>, from: nat, ghost s: string) returns (p: nat)
    requires buf.Length == |s| + 1 && buf[..|s|] == s && buf[|s|] == '\0' && '\0' !in s
    requires from <= |s|
    ensures from <= p <= |s| && (buf[p] == '\0' <==> p == |s|)
    ensures forall k :: from <= k < p ==> IsSpace(s[k])
    ensures p < |s| ==> !IsSpace(s[p])
  {
    assert forall k :: 0 <= k < |s| ==> buf[k] == s[k];
    p := from;
    while buf[p] != '\0' && IsSpace(buf[p])
      invariant from <= p <= |s|
      invariant forall k :: from <= k < p ==> IsSpace(s[k])
      decreases |s| - p
    {
      p := p + 1;
    }
  }

  /** The daemon's second loop: the end of the run of UUID characters that starts at `from`. */
  method SkipUuidChars(buf: array<char>, from: nat, ghost s: string) returns (q: nat)
    requires buf.Length == |s| + 1 && buf[..|s|] == s && buf[|s|] == '\0' && '\0' !in s
    requires from <= |s|
    ensures from <= q <= |s| && (buf[q] == '\0' <==> q == |s|)
    ensures forall k :: from <= k < q ==> IsUuidChar(s[k])
    ensures q < |s| ==> !IsUuidChar(s[q])
  {
    assert forall k :: 0 <= k < |s| ==> buf[k] == s[k];
    q := from;
    while buf[q] != '\0' && (IsXDigit(buf[q]) || buf[q] == '-')
      invariant from <= q <= |s|
      invariant forall k :: from <= k < q ==> IsUuidChar(s[k])
      decreases |s| - q
    {
      q := q + 1;
    }
  }

  /** Where the two loops stop determines UuidAfterMarker's answer. */
  lemma UuidLoops(s: string, start: nat, w: nat, u: nat)
    requires start + w + u <= |s|
    requires forall k :: start <= k < start + w ==> IsSpace(s[k])
    requires start + w < |s| ==> !IsSpace(s[start + w])
    requires forall k :: start + w <= k < start + w + u ==> IsUuidChar(s[k])
    requires start + w + u < |s| ==> !IsUuidChar(s[start + w + u])
    ensures UuidAfterMarker(s[start..]) ==
              if start + w == |s| || start + w + u == |s| then Err(MalformedUuid)
              else Ok(s[start + w..start + w + u])
  {
    var t := s[start..];
    SkippedSpace(s, t, start, w);
    if start + w < |s| {
      SkippedRun(s, t, start, w, u);
    }
  }

  /** The whitespace loop stops where Span over the text after the marker does. */
  lemma SkippedSpace(s: string, t: string, start: nat, w: nat)
    requires start + w <= |s| && t == s[start..]
    requires forall k :: start <= k < start + w ==> IsSpace(s[k])
    requires start + w < |s| ==> !IsSpace(s[start + w])
    ensures Span(t, IsSpace) == w
  {
    assert forall k :: 0 <= k <= w && k < |t| ==> t[k] == s[start + k];
    SpanIs(t, IsSpace, w);
  }

  /** The UUID loop stops where Span over the text after the whitespace does. */
  lemma SkippedRun(s: string, t: string, start: nat, w: nat, u: nat)
    requires start + w + u <= |s| && t == s[start..]
    requires forall k :: start + w <= k < start + w + u ==> IsUuidChar(s[k])
    requires start + w + u < |s| ==> !IsUuidChar(s[start + w + u])
    ensures Span(t[w..], IsUuidChar) == u
    ensures t[w..w + u] == s[start + w..start + w + u]
  {
    var v := t[w..];
    assert forall k :: 0 <= k <= u && k < |v| ==> v[k] == s[start + w + k];
    SpanIs(v, IsUuidChar, u);
  }
}
