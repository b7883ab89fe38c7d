/**
  The cleanup report: given the deleted paths, its file name and its text.
  No report exists when nothing was deleted. The two clock readings the
  report takes, one for the file name and one for the date line, are
  parameters.
 */
module Report {
  import opened Wrappers
  import opened Timestamp

  const Title: string := "Log Cleanup Report"
  const DatePrefix: string := "Date: "
  const Label: string := "Deleted Files:"
  const NamePrefix: string := "log_cleanup_report_"
  const NameSuffix: string := ".txt"

  /** A generated report: the name of its file and the text written to it. */
  datatype Report = Report(name: string, body: string)

  /** What a reader recovers from a report's text. */
  datatype Contents = Contents(date: DateTime, paths: seq<string>)

  /** The text of a sequence of lines, each terminated by a newline. */
  function Lines(ls: seq<string>): string
  {
    if ls == [] then "" else ls[0] + "\n" + Lines(ls[1..])
  }

  /** No line contains a newline of its own. */
  predicate NoNewlines(ls: seq<string>)
  {
    forall i :: 0 <= i < |ls| ==> '\n' !in ls[i]
  }

  /** The index of the first newline of `s`, or `|s|` when there is none. */
  function NewlineAt(s: string): (k: nat)
    ensures k <= |s| && '\n' !in s[..k] && (k < |s| ==> s[k] == '\n')
  {
    if s == [] then 0
    else if s[0] == '\n' then 0
    else
      var k := NewlineAt(s[1..]);
      assert s[..k + 1] == [s[0]] + s[1..][..k];
      k + 1
  }

  /** The lines of a text, split at each newline; an unterminated tail is a last line. */
  function SplitLines(s: string): seq<string>
    decreases |s|
  {
    if s == [] then []
    else
      var k := NewlineAt(s);
      if k == |s| then [s] else [s[..k]] + SplitLines(s[k + 1..])
  }

  /** The report's file name, `log_cleanup_report_<stamp>.txt`. */
  function ReportName(t: DateTime): (name: string)
    requires Valid(t)
    ensures |name| == |NamePrefix| + 19 + |NameSuffix|
    ensures name[..|NamePrefix|] == NamePrefix && name[|NamePrefix| + 19..] == NameSuffix
    ensures name[|NamePrefix|..|NamePrefix| + 19] == FileStamp(t)
  {
    NamePrefix + FileStamp(t) + NameSuffix
  }

  /**
    The report's text written as the source writes it: three writes, then
    one line per path. It is the four header lines followed by one line per
    path, in order.
   */
  function ReportBody(t: DateTime, paths: seq<string>): (body: string)
    requires Valid(t)
    ensures body == Lines(HeaderLines(t) + paths)
  {
    var h := HeaderLines(t);
    LinesAppend(h, paths);
    assert Lines(h[3..]) == Label + "\n" by {
      assert h[3..][1..] == [];
    }
    assert Lines(h[2..]) == "" + "\n" + Lines(h[3..]) by {
      assert h[2..][1..] == h[3..];
    }
    assert Lines(h[1..]) == DatePrefix + DateStamp(t) + "\n" + Lines(h[2..]) by {
      assert h[1..][1..] == h[2..];
    }
    assert Lines(h) == Title + "\n" + Lines(h[1..]);
    Title + "\n" + DatePrefix + DateStamp(t) + "\n\n" + Label + "\n" + Lines(paths)
  }

  /** The text lines that come before the paths. */
  function HeaderLines(t: DateTime): seq<string>
    requires Valid(t)
  {
    [Title, DatePrefix + DateStamp(t), "", Label]
  }

  /**
    The report generator: nothing for an empty list, otherwise the file name
    taken from `nameTime` and the text whose date line shows `dateTime`.
   */
  function GenerateReport(deleted: seq<string>, nameTime: DateTime, dateTime: DateTime): (r: Option<Report>)
    requires Valid(nameTime) && Valid(dateTime)
    ensures r.None? <==> deleted == []
    ensures r.Some? ==> ParseReportName(r.value.name) == Some(nameTime)
    ensures r.Some? ==> r.value.body == Lines(HeaderLines(dateTime) + deleted)
    ensures r.Some? && NoNewlines(deleted) ==> ParseReport(r.value.body) == Some(Contents(dateTime, deleted))
  {
    if deleted == [] then None
    else
      ReportFacts(deleted, nameTime, dateTime);
      Some(Report(ReportName(nameTime), ReportBody(dateTime, deleted)))
  }

  lemma ReportFacts(deleted: seq<string>, nameTime: DateTime, dateTime: DateTime)
    requires Valid(nameTime) && Valid(dateTime)
    ensures ParseReportName(ReportName(nameTime)) == Some(nameTime)
    ensures ReportBody(dateTime, deleted) == Lines(HeaderLines(dateTime) + deleted)
    ensures NoNewlines(deleted) ==> ParseReport(ReportBody(dateTime, deleted)) == Some(Contents(dateTime, deleted))
  {
    ReportNameRoundTrip(nameTime);
    if NoNewlines(deleted) {
      ReportRoundTrip(dateTime, deleted);
    }
  }

  /** Reads the date-time back from a report's file name. */
  function ParseReportName(name: string): Option<DateTime>
  {
    var n := |NamePrefix|;
    if |name| == n + 19 + |NameSuffix| && name[..n] == NamePrefix && name[n + 19..] == NameSuffix
    then Parse(name[n..n + 19], '-', '_', '-')
    else None
  }

  /** Reads a report's text back: the date of the date line and the listed paths. */
  function ParseReport(body: string): Option<Contents>
  {
    var ls := SplitLines(body);
    if |ls| >= 4 && ls[0] == Title && ls[2] == "" && ls[3] == Label
       && |ls[1]| >= |DatePrefix| && ls[1][..|DatePrefix|] == DatePrefix
    then
      match Parse(ls[1][|DatePrefix|..], '-', ' ', ':')
      case Some(t) => Some(Contents(t, ls[4..]))
      case None => None
    else None
  }

  lemma {:induction false} LinesAppend(a: seq<string>, b: seq<string>)
    ensures Lines(a + b) == Lines(a) + Lines(b)
  {
    if a == [] {
      assert a + b == b;
    } else {
      assert (a + b)[1..] == a[1..] + b;
      LinesAppend(a[1..], b);
    }
  }

  /** Splitting the text of newline-free lines gives back the lines. */
  lemma {:induction false} SplitLinesOfLines(ls: seq<string>)
    requires NoNewlines(ls)
    ensures SplitLines(Lines(ls)) == ls
  {
    if ls != [] {
      var s := Lines(ls);
      var l := ls[0];
      assert s == l + ("\n" + Lines(ls[1..]));
      NewlineIsFirst(l, Lines(ls[1..]));
      assert s[..|l|] == l;
      assert s[|l| + 1..] == Lines(ls[1..]);
      assert NoNewlines(ls[1..]) by {
        forall i | 0 <= i < |ls[1..]| ensures '\n' !in ls[1..][i] {
          assert ls[1..][i] == ls[i + 1];
        }
      }
      SplitLinesOfLines(ls[1..]);
    }
  }

  lemma NewlineIsFirst(l: string, rest: string)
    requires '\n' !in l
    ensures NewlineAt(l + "\n" + rest) == |l|
  {
    var s := l + "\n" + rest;
    var k := NewlineAt(s);
    assert s[|l|] == '\n';
    assert forall i :: 0 <= i < |l| ==> s[i] == l[i];
  }

  /**
    Round trip of the report text: when no path contains a newline, reading
    the text back gives the date of the date line and exactly the deleted
    paths, in order.
   */
  lemma ReportRoundTrip(t: DateTime, paths: seq<string>)
    requires Valid(t)
    requires NoNewlines(paths)
    ensures ParseReport(ReportBody(t, paths)) == Some(Contents(t, paths))
  {
    var h := HeaderLines(t);
    assert NoNewlines(h + paths) by {
      var stamp := DateStamp(t);
      assert stamp == Format(t, '-', ' ', ':');
      assert '\n' !in stamp by {
        forall i | 0 <= i < |stamp| ensures stamp[i] != '\n' {
          assert i in {4, 7, 10, 13, 16} || IsDigit(stamp[i]);
        }
      }
      assert '\n' !in DatePrefix + stamp;
      forall i | 0 <= i < |h + paths| ensures '\n' !in (h + paths)[i] {
        if i >= |h| {
          assert (h + paths)[i] == paths[i - |h|];
        }
      }
    }
    SplitLinesOfLines(h + paths);
    var line := DatePrefix + DateStamp(t);
    assert line[|DatePrefix|..] == DateStamp(t);
    assert (h + paths)[4..] == paths;
  }

  /** The report name of a date-time parses back to that date-time; `ParsedNameIsReportName` gives the converse. */
  lemma ReportNameRoundTrip(t: DateTime)
    requires Valid(t)
    ensures ParseReportName(ReportName(t)) == Some(t)
  {
  }

  lemma ParsedNameIsReportName(name: string, t: DateTime)
    requires ParseReportName(name) == Some(t)
    ensures Valid(t) && name == ReportName(t)
  {
    var n := |NamePrefix|;
    FormatParse(name[n..n + 19], '-', '_', '-', t);
    assert name == name[..n] + name[n..n + 19] + name[n + 19..];
  }

  /**
    Two different clock readings give two different report names. The
    readings are local wall-clock time, which can repeat: when daylight
    saving time ends, or when the clock is set back. Readings that repeat
    give the same name, and the later report then overwrites the earlier one.
   */
  lemma DistinctSecondsDistinctNames(t1: DateTime, t2: DateTime)
    requires Valid(t1) && Valid(t2) && t1 != t2
    ensures ReportName(t1) != ReportName(t2)
  {
  }

  /**
    A path with a newline in it cannot be told apart from two paths: the
    report of the single path `a\nb` is the report of the paths `a` and `b`.
   */
  lemma NewlineInPathIsAmbiguous(t: DateTime)
    requires Valid(t)
    ensures ReportBody(t, ["a\nb"]) == ReportBody(t, ["a", "b"])
    ensures ["a\nb"] != ["a", "b"]
  {
  }
}
