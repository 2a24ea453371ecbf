/**
 * The worker's chunk processing: read a byte range of a file, split it into
 * lines, skip blank lines, parse the rest, drop the lines the parser
 * rejects, tag each accepted entry with the file path, feed the batch to the
 * worker's analyzer once, and return it.
 *
 * The line parser is a parameter: a line either yields an entry or is
 * rejected, which stands for the parser raising `ValueError`.
 */
module Worker {
  import opened Wrappers
  import opened LogRecords
  import opened TextLines
  import opened Analyzer

  type Parser = string -> Option<Entry>

  /**
   * What `seek(start)` followed by `read(size)` returns: up to `size`
   * characters from offset `start`, fewer at the end of the file, none past it.
   */
  function ChunkText(contents: string, start: nat, size: nat): (t: string)
    ensures |t| == if start >= |contents| then 0
                   else if size <= |contents| - start then size else |contents| - start
    ensures forall i :: 0 <= i < |t| ==> t[i] == contents[start + i]
  {
    if start >= |contents| then ""
    else if start + size <= |contents| then contents[start..start + size]
    else contents[start..]
  }

  /** The records one line contributes: none if blank or rejected, else its tagged entry. */
  function Accept(line: string, filepath: string, parse: Parser): (rs: seq<Record>)
    ensures Accepted(line, parse) ==> rs == [Tag(parse(line).value, filepath)]
    ensures !Accepted(line, parse) ==> rs == []
  {
    if Strip(line) == "" then []
    else match parse(line)
      case None => []
      case Some(e) => [Tag(e, filepath)]
  }

  /** The records of a sequence of lines, line by line. */
  function ParseLines(lines: seq<string>, filepath: string, parse: Parser): (rs: seq<Record>)
    ensures forall k :: 0 <= k < |rs| ==> rs[k].filepath == filepath
  {
    if |lines| == 0 then [] else Accept(lines[0], filepath, parse) + ParseLines(lines[1..], filepath, parse)
  }

  /** Processing lines distributes over concatenation: output order follows line order. */
  lemma {:induction false} ParseLinesAppend(a: seq<string>, b: seq<string>, filepath: string, parse: Parser)
    ensures ParseLines(a + b, filepath, parse) == ParseLines(a, filepath, parse) + ParseLines(b, filepath, parse)
    decreases |a|
  {
    if |a| > 0 {
      assert (a + b)[0] == a[0];
      assert (a + b)[1..] == a[1..] + b;
      ParseLinesAppend(a[1..], b, filepath, parse);
    } else {
      assert a + b == b;
    }
  }

  /**
   * A line is accepted when it is not blank (`line.strip()` is non-empty,
   * see `StripEmptyIffBlank`) and the parser yields an entry for it.
   */
  predicate Accepted(line: string, parse: Parser) {
    Strip(line) != "" && parse(line).Some?
  }

  /** `idx[k]` is the source line of record `rs[k]`. */
  ghost predicate SourcedFrom(rs: seq<Record>, idx: seq<nat>, lines: seq<string>, filepath: string, parse: Parser) {
    && |idx| == |rs|
    && (forall k :: 0 <= k < |idx| ==>
          && idx[k] < |lines|
          && Accepted(lines[idx[k]], parse)
          && rs[k] == Tag(parse(lines[idx[k]]).value, filepath))
    && (forall k, l :: 0 <= k < l < |idx| ==> idx[k] < idx[l])
    && (forall j :: 0 <= j < |lines| && Accepted(lines[j], parse) ==> j in idx)
  }

  /** Shifting a source map of `lines[1..]` by one gives a source map into `lines`. */
  lemma SourcedFromShift(lines: seq<string>, rest: seq<Record>, tail: seq<nat>, filepath: string, parse: Parser)
    returns (shifted: seq<nat>)
    requires 0 < |lines|
    requires SourcedFrom(rest, tail, lines[1..], filepath, parse)
    ensures |shifted| == |rest|
    ensures forall k :: 0 <= k < |shifted| ==>
      && 0 < shifted[k] < |lines|
      && Accepted(lines[shifted[k]], parse)
      && rest[k] == Tag(parse(lines[shifted[k]]).value, filepath)
    ensures forall k, l :: 0 <= k < l < |shifted| ==> shifted[k] < shifted[l]
    ensures forall j :: 0 < j < |lines| && Accepted(lines[j], parse) ==> j in shifted
  {
    shifted := seq(|tail|, k requires 0 <= k < |tail| => tail[k] + 1);
    assert forall k :: 0 <= k < |tail| ==> lines[shifted[k]] == lines[1..][tail[k]];
    forall j | 0 < j < |lines| && Accepted(lines[j], parse)
      ensures j in shifted
    {
      assert lines[1..][j - 1] == lines[j];
      var k :| 0 <= k < |tail| && tail[k] == j - 1;
      assert shifted[k] == j;
    }
  }

  /** Prepending source line 0 keeps a source map strictly increasing. */
  lemma PrependZeroIncreasing(shifted: seq<nat>)
    requires forall k :: 0 <= k < |shifted| ==> 0 < shifted[k]
    requires forall k, l :: 0 <= k < l < |shifted| ==> shifted[k] < shifted[l]
    ensures var idx := [0] + shifted; forall k, l :: 0 <= k < l < |idx| ==> idx[k] < idx[l]
  {
    var idx := [0] + shifted;
    forall k, l | 0 <= k < l < |idx|
      ensures idx[k] < idx[l]
    {
      assert idx[l] == shifted[l - 1];
      if k > 0 {
        assert idx[k] == shifted[k - 1];
      }
    }
  }

  /** Prepending source line 0 keeps every accepted line represented. */
  lemma PrependZeroComplete(lines: seq<string>, shifted: seq<nat>, parse: Parser)
    requires 0 < |lines|
    requires forall j :: 0 < j < |lines| && Accepted(lines[j], parse) ==> j in shifted
    ensures forall j :: 0 <= j < |lines| && Accepted(lines[j], parse) ==> j in [0] + shifted
  {
    var idx := [0] + shifted;
    forall j | 0 <= j < |lines| && Accepted(lines[j], parse)
      ensures j in idx
    {
      if j > 0 {
        var k :| 0 <= k < |shifted| && shifted[k] == j;
        assert idx[k + 1] == j;
      }
    }
  }

  /** An accepted first line becomes the first record, with source line 0. */
  lemma SourcedFromAccepted(lines: seq<string>, rs: seq<Record>, rest: seq<Record>, shifted: seq<nat>,
                            filepath: string, parse: Parser)
    requires 0 < |lines| && Accepted(lines[0], parse)
    requires rs == [Tag(parse(lines[0]).value, filepath)] + rest
    requires |shifted| == |rest|
    requires forall k :: 0 <= k < |shifted| ==>
      && 0 < shifted[k] < |lines|
      && Accepted(lines[shifted[k]], parse)
      && rest[k] == Tag(parse(lines[shifted[k]]).value, filepath)
    requires forall k, l :: 0 <= k < l < |shifted| ==> shifted[k] < shifted[l]
    requires forall j :: 0 < j < |lines| && Accepted(lines[j], parse) ==> j in shifted
    ensures SourcedFrom(rs, [0] + shifted, lines, filepath, parse)
  {
    var idx := [0] + shifted;
    forall k | 0 <= k < |idx|
      ensures idx[k] < |lines| && Accepted(lines[idx[k]], parse)
      ensures rs[k] == Tag(parse(lines[idx[k]]).value, filepath)
    {
      if k > 0 {
        assert idx[k] == shifted[k - 1] && rs[k] == rest[k - 1];
      }
    }
    PrependZeroIncreasing(shifted);
    PrependZeroComplete(lines, shifted, parse);
  }

  lemma SourcedFromCons(lines: seq<string>, tail: seq<nat>, filepath: string, parse: Parser)
    returns (idx: seq<nat>)
    requires 0 < |lines|
    requires SourcedFrom(ParseLines(lines[1..], filepath, parse), tail, lines[1..], filepath, parse)
    ensures SourcedFrom(ParseLines(lines, filepath, parse), idx, lines, filepath, parse)
  {
    var rest := ParseLines(lines[1..], filepath, parse);
    var rs := ParseLines(lines, filepath, parse);
    assert rs == Accept(lines[0], filepath, parse) + rest;
    var shifted := SourcedFromShift(lines, rest, tail, filepath, parse);
    if Accepted(lines[0], parse) {
      idx := [0] + shifted;
      SourcedFromAccepted(lines, rs, rest, shifted, filepath, parse);
    } else {
      idx := shifted;
      assert rs == rest;
    }
  }

  /**
   * The output is exactly the accepted lines, in line order, each turned into
   * its parsed entry tagged with the file path: `idx` lists the source line
   * of each record, strictly increasing, and misses no accepted line.
   */
  lemma {:induction false} ParseLinesSources(lines: seq<string>, filepath: string, parse: Parser)
    returns (idx: seq<nat>)
    ensures SourcedFrom(ParseLines(lines, filepath, parse), idx, lines, filepath, parse)
    decreases |lines|
  {
    if |lines| == 0 {
      idx := [];
    } else {
      var tail := ParseLinesSources(lines[1..], filepath, parse);
      idx := SourcedFromCons(lines, tail, filepath, parse);
    }
  }

  /** At most one record per non-blank line. */
  function NonBlankLines(lines: seq<string>): nat {
    if |lines| == 0 then 0 else (if Blank(lines[0]) then 0 else 1) + NonBlankLines(lines[1..])
  }

  lemma {:induction false} ParseLinesBounded(lines: seq<string>, filepath: string, parse: Parser)
    ensures |ParseLines(lines, filepath, parse)| <= NonBlankLines(lines)
    decreases |lines|
  {
    if |lines| > 0 {
      StripEmptyIffBlank(lines[0]);
      ParseLinesBounded(lines[1..], filepath, parse);
    }
  }

  /**
   * Blank lines never reach the parser: two parsers that agree on every
   * non-blank line give the same records.
   */
  lemma {:induction false} BlankLinesUnparsed(lines: seq<string>, filepath: string, p1: Parser, p2: Parser)
    requires forall j :: 0 <= j < |lines| && !Blank(lines[j]) ==> p1(lines[j]) == p2(lines[j])
    ensures ParseLines(lines, filepath, p1) == ParseLines(lines, filepath, p2)
    decreases |lines|
  {
    if |lines| > 0 {
      StripEmptyIffBlank(lines[0]);
      assert forall j :: 1 <= j < |lines| ==> lines[1..][j - 1] == lines[j];
      BlankLinesUnparsed(lines[1..], filepath, p1, p2);
    }
  }

  /**
   * `process_chunk`: `contents` is the file's text, or `None` when it cannot
   * be opened, in which case no records are returned and the analyzer is not
   * updated. Otherwise the chunk's lines are processed in order and the
   * analyzer is updated once, with exactly the returned records.
   */
  method ProcessChunk(an: Analyzer, contents: Option<string>, filepath: string, start: nat, size: nat,
                      parse: Parser)
    returns (records: seq<Record>, updated: Analyzer)
    ensures contents.None? ==> records == [] && updated == an
    ensures contents.Some? ==>
      && records == ParseLines(Split(ChunkText(contents.value, start, size)), filepath, parse)
      && updated == UpdateMetrics(an, records)
  {
    if contents.None? {
      return [], an;
    }
    var lines := Split(ChunkText(contents.value, start, size));
    records := [];
    var i := 0;
    while i < |lines|
      invariant 0 <= i <= |lines|
      invariant records == ParseLines(lines[..i], filepath, parse)
    {
      var line := lines[i];
      ghost var before := records;
      if Strip(line) != "" {
        match parse(line)
        case Some(e) =>
          records := records + [Tag(e, filepath)];
        case None =>
      }
      assert records == before + Accept(line, filepath, parse);
      assert ParseLines([line], filepath, parse) == Accept(line, filepath, parse);
      ParseLinesAppend(lines[..i], [line], filepath, parse);
      assert lines[..i + 1] == lines[..i] + [line];
      i := i + 1;
    }
    assert lines[..|lines|] == lines;
    updated := UpdateMetrics(an, records);
  }
}
