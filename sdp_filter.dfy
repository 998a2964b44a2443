/**
 * The receiver's SDP compatibility filter: split a session description into
 * lines the way Python's `str.splitlines` does, drop every line that mentions
 * the retransmission codec (`video/rtx`) or its associated-payload parameter
 * (`apt=`, section 8 of RFC 4588), and join what is left with CRLF.
 * The match is plain substring text, not SDP grammar.
 */
module SdpFilter {

  const Crlf: string := "\r\n"
  const RtxCodec: string := "video/rtx"
  const AptParam: string := "apt="

  /** The characters `str.splitlines` treats as line boundaries
      ("\r\n" is a single boundary, handled in SplitLines). */
  predicate IsLineBoundary(c: char) {
    c == '\n' || c == '\r' || c == '\U{000B}' || c == '\U{000C}' ||
    c == '\U{001C}' || c == '\U{001D}' || c == '\U{001E}' ||
    c == '\U{0085}' || c == '\U{2028}' || c == '\U{2029}'
  }

  predicate NoBoundary(line: string) {
    forall k :: 0 <= k < |line| ==> !IsLineBoundary(line[k])
  }

  /** `pat` occurs in `s` starting at index `i`. */
  predicate OccursAt(s: string, pat: string, i: nat) {
    i + |pat| <= |s| && s[i..i + |pat|] == pat
  }

  /** Python's `pat in s` for strings. */
  predicate Contains(s: string, pat: string) {
    exists i :: 0 <= i <= |s| - |pat| && OccursAt(s, pat, i)
  }

  /** The test at receiver.py line 22: the line is dropped. */
  predicate IsRtxLine(line: string) {
    Contains(line, RtxCodec) || Contains(line, AptParam)
  }

  /** Index of the first line boundary in `s`, or |s| if there is none. */
  function FirstBoundary(s: string): (i: nat)
    ensures i <= |s|
    ensures forall k :: 0 <= k < i ==> !IsLineBoundary(s[k])
    ensures i < |s| ==> IsLineBoundary(s[i])
  {
    if s == [] || IsLineBoundary(s[0]) then 0 else 1 + FirstBoundary(s[1..])
  }

  /** Python's `str.splitlines()` without `keepends`: the terminator of the
      last line is optional, and the empty string has no lines. */
  function SplitLines(s: string): (lines: seq<string>)
    ensures forall k :: 0 <= k < |lines| ==> NoBoundary(lines[k])
    ensures s == [] <==> lines == []
    decreases |s|
  {
    if s == [] then []
    else
      var i := FirstBoundary(s);
      var next :=
        if i == |s| then i
        else if s[i] == '\r' && i + 1 < |s| && s[i + 1] == '\n' then i + 2
        else i + 1;
      [s[..i]] + SplitLines(s[next..])
  }

  /** Python's `sep.join(lines)`: the text starts with the first line. */
  function Join(lines: seq<string>, sep: string): (s: string)
    ensures lines != [] ==> lines[0] <= s
  {
    if lines == [] then ""
    else if |lines| == 1 then lines[0]
    else lines[0] + sep + Join(lines[1..], sep)
  }

  /** The join ends with the last line: no separator follows it. */
  lemma {:induction false} JoinEndsWithLast(lines: seq<string>, sep: string)
    requires lines != []
    ensures var s, last := Join(lines, sep), lines[|lines| - 1];
      |last| <= |s| && s[|s| - |last|..] == last
  {
    if |lines| > 1 {
      JoinEndsWithLast(lines[1..], sep);
      var rest := Join(lines[1..], sep);
      assert Join(lines, sep) == (lines[0] + sep) + rest;
      assert lines[1..][|lines| - 2] == lines[|lines| - 1];
    }
  }

  /** The lines the filter keeps, in their original order. */
  function Retained(lines: seq<string>): (kept: seq<string>)
    ensures |kept| <= |lines|
    ensures forall k :: 0 <= k < |kept| ==> !IsRtxLine(kept[k]) && kept[k] in lines
  {
    if lines == [] then []
    else if IsRtxLine(lines[0]) then Retained(lines[1..])
    else [lines[0]] + Retained(lines[1..])
  }

  /** What `remove_rtx_from_sdp` returns for `sdp`: the text contains
      neither pattern anywhere, not just on each retained line. */
  function FilteredSdp(sdp: string): (filtered: string)
    ensures !Contains(filtered, RtxCodec) && !Contains(filtered, AptParam)
  {
    var kept := Retained(SplitLines(sdp));
    JoinAvoids(kept, RtxCodec);
    JoinAvoids(kept, AptParam);
    Join(kept, Crlf)
  }

  /** The filter as the source writes it: a loop appending kept lines. */
  method RemoveRtxFromSdp(sdp: string) returns (filtered: string)
    ensures filtered == FilteredSdp(sdp)
    ensures !Contains(filtered, RtxCodec) && !Contains(filtered, AptParam)
  {
    var lines := SplitLines(sdp);
    var newLines: seq<string> := [];
    for i := 0 to |lines|
      invariant newLines == Retained(lines[..i])
    {
      RetainedAppend(lines[..i], [lines[i]]);
      assert lines[..i + 1] == lines[..i] + [lines[i]];
      if IsRtxLine(lines[i]) {
        continue;
      }
      newLines := newLines + [lines[i]];
    }
    assert lines[..|lines|] == lines;
    filtered := Join(newLines, Crlf);
  }

  // ---------------------------------------------------------------------
  // Properties of the filter on lines

  /** Filtering distributes over concatenation: kept lines keep their
      relative order and nothing is reordered across a split point. */
  lemma {:induction false} RetainedAppend(a: seq<string>, b: seq<string>)
    ensures Retained(a + b) == Retained(a) + Retained(b)
  {
    if a != [] {
      assert (a + b)[1..] == a[1..] + b;
      RetainedAppend(a[1..], b);
    } else {
      assert a + b == b;
    }
  }

  /** Exactly one line: kept if and only if it mentions neither pattern. */
  lemma RetainedSingle(line: string)
    ensures Retained([line]) == if IsRtxLine(line) then [] else [line]
  {
  }

  /** Every line that mentions neither pattern survives. */
  lemma {:induction false} CleanLinesSurvive(lines: seq<string>, line: string)
    requires line in lines && !IsRtxLine(line)
    ensures line in Retained(lines)
  {
    if lines[0] != line {
      CleanLinesSurvive(lines[1..], line);
    }
  }

  /** A list with no matching line is left unchanged. */
  lemma {:induction false} RetainedClean(lines: seq<string>)
    requires forall k :: 0 <= k < |lines| ==> !IsRtxLine(lines[k])
    ensures Retained(lines) == lines
  {
    if lines != [] {
      RetainedClean(lines[1..]);
    }
  }

  // ---------------------------------------------------------------------
  // Properties of the filtered text

  /** A pattern free of CR and LF cannot straddle a CRLF separator. */
  lemma NotAcrossCrlf(a: string, b: string, pat: string)
    requires |pat| > 0 && '\r' !in pat && '\n' !in pat
    requires !Contains(a, pat) && !Contains(b, pat)
    ensures !Contains(a + Crlf + b, pat)
  {
    var s := a + Crlf + b;
    forall i | 0 <= i <= |s| - |pat|
      ensures !OccursAt(s, pat, i)
    {
      if i + |pat| <= |a| {
        assert !OccursAt(a, pat, i);
        assert a[i..i + |pat|] == s[i..i + |pat|];
      } else if i >= |a| + 2 {
        assert !OccursAt(b, pat, i - |a| - 2);
        assert b[i - |a| - 2..i - |a| - 2 + |pat|] == s[i..i + |pat|];
      } else if i <= |a| {
        assert s[|a|] == '\r' && s[i..i + |pat|][|a| - i] == s[|a|];
      } else {
        assert s[i] == '\n' && s[i..i + |pat|][0] == s[i];
      }
    }
  }

  lemma {:induction false} JoinAvoids(lines: seq<string>, pat: string)
    requires |pat| > 0 && '\r' !in pat && '\n' !in pat
    requires forall k :: 0 <= k < |lines| ==> !Contains(lines[k], pat)
    ensures !Contains(Join(lines, Crlf), pat)
  {
    if lines == [] {
      assert !OccursAt("", pat, 0);
    } else if |lines| > 1 {
      JoinAvoids(lines[1..], pat);
      NotAcrossCrlf(lines[0], Join(lines[1..], Crlf), pat);
    }
  }

  /** If no line matches, the output is the input's lines re-joined with
      CRLF: line endings become CRLF and the final terminator is dropped. */
  lemma FilterWithoutRtx(sdp: string)
    requires forall k :: 0 <= k < |SplitLines(sdp)| ==> !IsRtxLine(SplitLines(sdp)[k])
    ensures FilteredSdp(sdp) == Join(SplitLines(sdp), Crlf)
  {
    RetainedClean(SplitLines(sdp));
  }

  // ---------------------------------------------------------------------
  // Splitting a CRLF-joined text gives the lines back

  lemma {:induction false} FirstBoundaryAfterLine(line: string, rest: string)
    requires NoBoundary(line)
    requires rest != [] && IsLineBoundary(rest[0])
    ensures FirstBoundary(line + rest) == |line|
  {
    if line == [] {
      assert line + rest == rest;
    } else {
      assert (line + rest)[1..] == line[1..] + rest;
      FirstBoundaryAfterLine(line[1..], rest);
    }
  }

  lemma {:induction false} FirstBoundaryOfLine(line: string)
    requires NoBoundary(line)
    ensures FirstBoundary(line) == |line|
  {
    if line != [] {
      FirstBoundaryOfLine(line[1..]);
    }
  }

  /** `splitlines` undoes a CRLF join, provided no line contains a
      boundary and the last line is not empty (an empty last line would
      leave a trailing CRLF, which `splitlines` drops). */
  lemma {:induction false} SplitJoin(lines: seq<string>)
    requires forall k :: 0 <= k < |lines| ==> NoBoundary(lines[k])
    requires lines == [] || lines[|lines| - 1] != []
    ensures SplitLines(Join(lines, Crlf)) == lines
  {
    if |lines| == 1 {
      FirstBoundaryOfLine(lines[0]);
      assert Join(lines, Crlf) == lines[0];
      assert lines[0][..|lines[0]|] == lines[0];
    } else if |lines| > 1 {
      var line, tail := lines[0], Join(lines[1..], Crlf);
      var s := line + Crlf + tail;
      assert s == line + (Crlf + tail);
      FirstBoundaryAfterLine(line, Crlf + tail);
      assert s[..|line|] == line;
      assert s[|line| + 2..] == tail;
      SplitJoin(lines[1..]);
    }
  }

  /** Re-filtering gives the same text when at most one line is kept or
      the last kept line is not empty. */
  lemma FilterIdempotent(sdp: string)
    requires var kept := Retained(SplitLines(sdp)); |kept| <= 1 || kept[|kept| - 1] != []
    ensures FilteredSdp(FilteredSdp(sdp)) == FilteredSdp(sdp)
  {
    var kept := Retained(SplitLines(sdp));
    RetainedLinesHaveNoBoundary(SplitLines(sdp));
    if kept != [] && kept[|kept| - 1] == [] {
      RefilterEmptyLine(kept);
    } else {
      RefilterJoin(kept);
    }
  }

  /** Kept lines joined with CRLF come through the filter unchanged when
      the last one is not empty. */
  lemma RefilterJoin(kept: seq<string>)
    requires forall k :: 0 <= k < |kept| ==> NoBoundary(kept[k])
    requires forall k :: 0 <= k < |kept| ==> !IsRtxLine(kept[k])
    requires kept == [] || kept[|kept| - 1] != []
    ensures FilteredSdp(Join(kept, Crlf)) == Join(kept, Crlf)
  {
    var text := Join(kept, Crlf);
    SplitJoin(kept);
    assert SplitLines(text) == kept;
    RetainedClean(kept);
    assert Retained(SplitLines(text)) == kept;
  }

  /** One empty kept line joins to the empty text, which the filter
      leaves empty. The precondition says `kept == [""]`; it is written in
      the shape of the branch condition in `FilterIdempotent` because the
      solver needs far longer to derive the plain equality there. */
  lemma RefilterEmptyLine(kept: seq<string>)
    requires |kept| <= 1 && kept != [] && kept[|kept| - 1] == []
    ensures FilteredSdp(Join(kept, Crlf)) == Join(kept, Crlf) == []
  {
    assert SplitLines([]) == [];
  }

  /** An empty last line adds a trailing CRLF to the join. */
  lemma {:induction false} JoinEmptyLast(lines: seq<string>)
    requires |lines| >= 2 && lines[|lines| - 1] == []
    ensures Join(lines, Crlf) == Join(lines[..|lines| - 1], Crlf) + Crlf
  {
    var n := |lines|;
    if n == 2 {
      assert Join(lines[1..], Crlf) == lines[1];
      assert Join(lines[..1], Crlf) == lines[0];
    } else {
      JoinEmptyLast(lines[1..]);
      assert lines[..n - 1][1..] == lines[1..][..n - 2];
    }
  }

  /** A boundary-free line followed by CRLF is split off as one line. */
  lemma SplitAfterLine(line: string, rest: string)
    requires NoBoundary(line)
    ensures SplitLines(line + Crlf + rest) == [line] + SplitLines(rest)
  {
    var s := line + Crlf + rest;
    assert s == line + (Crlf + rest);
    FirstBoundaryAfterLine(line, Crlf + rest);
    assert s[..|line|] == line;
    assert s[|line| + 2..] == rest;
  }

  /** `splitlines` drops a trailing CRLF after CRLF-joined lines. */
  lemma {:induction false} SplitJoinCrlf(ks: seq<string>)
    requires ks != [] && forall k :: 0 <= k < |ks| ==> NoBoundary(ks[k])
    ensures SplitLines(Join(ks, Crlf) + Crlf) == ks
  {
    if |ks| == 1 {
      SplitOneLineCrlf(ks);
    } else {
      SplitJoinCrlf(ks[1..]);
      SplitJoinCrlfStep(ks);
    }
  }

  lemma SplitOneLineCrlf(ks: seq<string>)
    requires |ks| == 1 && NoBoundary(ks[0])
    ensures SplitLines(Join(ks, Crlf) + Crlf) == ks
  {
    SplitAfterLine(ks[0], []);
    assert Join(ks, Crlf) + Crlf == ks[0] + Crlf + [];
    assert [ks[0]] == ks;
  }

  lemma SplitJoinCrlfStep(ks: seq<string>)
    requires |ks| > 1 && NoBoundary(ks[0])
    requires SplitLines(Join(ks[1..], Crlf) + Crlf) == ks[1..]
    ensures SplitLines(Join(ks, Crlf) + Crlf) == ks
  {
    JoinCrlfCons(ks);
    SplitAfterLine(ks[0], Join(ks[1..], Crlf) + Crlf);
    assert [ks[0]] + ks[1..] == ks;
  }

  lemma JoinCrlfCons(ks: seq<string>)
    requires |ks| > 1
    ensures Join(ks, Crlf) + Crlf == ks[0] + Crlf + (Join(ks[1..], Crlf) + Crlf)
  {
    assert Join(ks, Crlf) == ks[0] + Crlf + Join(ks[1..], Crlf);
  }

  /** Clean lines joined with CRLF, plus a trailing CRLF, filter back to
      their join. */
  lemma RefilterCrlf(ks: seq<string>)
    requires ks != []
    requires forall k :: 0 <= k < |ks| ==> NoBoundary(ks[k])
    requires forall k :: 0 <= k < |ks| ==> !IsRtxLine(ks[k])
    ensures FilteredSdp(Join(ks, Crlf) + Crlf) == Join(ks, Crlf)
  {
    SplitJoinCrlf(ks);
    RetainedClean(ks);
  }

  /** Filtering is not idempotent whenever two or more lines are kept and
      the last of them is empty: the second pass drops the trailing CRLF
      the first pass produced. */
  lemma FilterNotIdempotent(sdp: string)
    requires var kept := Retained(SplitLines(sdp)); |kept| >= 2 && kept[|kept| - 1] == []
    ensures FilteredSdp(FilteredSdp(sdp)) != FilteredSdp(sdp)
  {
    var kept := Retained(SplitLines(sdp));
    JoinEmptyLast(kept);
    RetainedLinesHaveNoBoundary(SplitLines(sdp));
    RefilterCrlf(kept[..|kept| - 1]);
  }

  lemma {:induction false} RetainedLinesHaveNoBoundary(lines: seq<string>)
    requires forall k :: 0 <= k < |lines| ==> NoBoundary(lines[k])
    ensures forall k :: 0 <= k < |Retained(lines)| ==> NoBoundary(Retained(lines)[k])
  {
    if lines != [] {
      RetainedLinesHaveNoBoundary(lines[1..]);
    }
  }

  /** With two kept lines, the last one empty, idempotence fails:
      "\n\n" filters to "\r\n", which filters to "". */
  lemma FilterNotIdempotentOnEmptyLastLine()
    ensures FilteredSdp("\n\n") == "\r\n"
    ensures FilteredSdp("\r\n") == ""
  {
    assert !Contains("", RtxCodec) && !Contains("", AptParam);
    assert FirstBoundary("\n\n") == 0;
    assert ("\n\n")[1..] == "\n";
    assert FirstBoundary("\n") == 0;
    assert SplitLines("\n") == [""];
    assert SplitLines("\n\n") == ["", ""];
    assert Retained(["", ""]) == ["", ""];
    assert FirstBoundary("\r\n") == 0;
    assert SplitLines("\r\n") == [""];
  }
}
