/**
  The Microsoft Authenticator export script: the loop that collects one
  provisioning URI per convertible row, and the content of the output file.

  The database query, the file system, the clock and the console are not part
  of this model: the rows the query returns are the input, in query order.
 */
module MSAuthExport {

  import opened Wrappers
  import opened OtpUri
  import Convert

  // ---------------------------------------------------------------------------
  // The export loop

  /** The URIs of the rows that are not skipped, in row order. */
  function Exported(rows: seq<Row>): (urls: seq<string>)
    ensures |urls| <= |rows|
  {
    if |rows| == 0 then []
    else
      var last := rows[|rows| - 1];
      Exported(rows[..|rows| - 1]) + (if Transform(last).Some? then [Transform(last).value] else [])
  }

  /** The number of rows whose secret cannot be converted. */
  function Skipped(rows: seq<Row>): (n: nat)
    ensures n <= |rows|
  {
    if |rows| == 0 then 0
    else Skipped(rows[..|rows| - 1]) + (if Transform(rows[|rows| - 1]).None? then 1 else 0)
  }

  /** Every row gives one URI or is skipped. */
  lemma {:induction false} ExportedCount(rows: seq<Row>)
    ensures |Exported(rows)| + Skipped(rows) == |rows|
  {
    if |rows| > 0 {
      ExportedCount(rows[..|rows| - 1]);
    }
  }

  /** The URIs of consecutive runs of rows follow each other: row order is kept. */
  lemma {:induction false} ExportedAppend(a: seq<Row>, b: seq<Row>)
    ensures Exported(a + b) == Exported(a) + Exported(b)
    decreases |b|
  {
    if |b| == 0 {
      assert a + b == a;
    } else {
      var b' := b[..|b| - 1];
      assert (a + b)[..|a + b| - 1] == a + b';
      ExportedAppend(a, b');
    }
  }

  /** One row contributes its URI, or nothing when it is skipped. */
  lemma ExportedOne(row: Row)
    ensures Exported([row]) == if Transform(row).Some? then [Transform(row).value] else []
  {
    assert [row][..0] == [];
  }

  /** The loop over the query's rows: `otpauth_urls`, and the number of rows skipped. */
  method Export(rows: seq<Row>) returns (urls: seq<string>, skipped: nat)
    ensures urls == Exported(rows)
    ensures skipped == Skipped(rows)
    ensures |urls| + skipped == |rows|
  {
    urls := [];
    skipped := 0;
    for i := 0 to |rows|
      invariant urls == Exported(rows[..i])
      invariant skipped == Skipped(rows[..i])
    {
      ExportedStep(rows, i);
      var url := ExportRow(rows[i]);
      if url.None? {
        skipped := skipped + 1;
      } else {
        urls := urls + [url.value];
      }
    }
    assert rows[..|rows|] == rows;
    ExportedCount(rows);
  }

  /** One more row adds its URI, or one more skip. */
  lemma ExportedStep(rows: seq<Row>, i: nat)
    requires i < |rows|
    ensures var t := Transform(rows[i]);
      && Exported(rows[..i + 1]) == Exported(rows[..i]) + (if t.Some? then [t.value] else [])
      && Skipped(rows[..i + 1]) == Skipped(rows[..i]) + (if t.None? then 1 else 0)
  {
    var prefix := rows[..i + 1];
    assert prefix[..|prefix| - 1] == rows[..i] && prefix[|prefix| - 1] == rows[i];
  }

  /** The body of the loop for one row: its URI, or None when its secret cannot be converted. */
  method ExportRow(row: Row) returns (url: Option<string>)
    ensures url == Transform(row)
  {
    var secret: string;
    var cleaned := Clean(row.secretKey);
    if row.accountType == 1 {
      var converted := Convert.Base64ToBase32(cleaned);
      if converted.None? {
        return None;
      }
      secret := converted.value;
    } else {
      secret := Upper(cleaned);
    }
    return Some(RowUri(row, secret));
  }

  // ---------------------------------------------------------------------------
  // The output file

  /** The file content: each URI followed by '\n'. */
  function Joined(urls: seq<string>): string {
    if |urls| == 0 then "" else urls[0] + "\n" + Joined(urls[1..])
  }

  lemma {:induction false} JoinedSnoc(urls: seq<string>, u: string)
    ensures Joined(urls + [u]) == Joined(urls) + u + "\n"
  {
    if |urls| == 0 {
      assert [u][1..] == [];
    } else {
      assert (urls + [u])[1..] == urls[1..] + [u];
      JoinedSnoc(urls[1..], u);
    }
  }

  /** Splitting the file content at its line breaks gives the URIs back, then the empty text after the last one. */
  lemma LinesOfJoined(urls: seq<string>)
    requires forall i :: 0 <= i < |urls| ==> '\n' !in urls[i]
    ensures Split(Joined(urls), '\n') == urls + [""]
  {
    JoinedFields(urls);
    assert forall i :: 0 <= i < |urls + [""]| ==> '\n' !in (urls + [""])[i];
    SplitJoin(urls + [""], '\n');
  }

  /** The content is the URIs and a final empty text, joined by line breaks. */
  lemma {:induction false} JoinedFields(urls: seq<string>)
    ensures Joined(urls) == JoinFields(urls + [""], '\n')
  {
    if |urls| == 0 {
      assert urls + [""] == [""];
    } else {
      JoinedFields(urls[1..]);
      assert (urls + [""])[1..] == urls[1..] + [""];
    }
  }

  /** Writing the URIs to the file one line at a time. */
  method WriteLines(urls: seq<string>) returns (content: string)
    ensures content == Joined(urls)
  {
    content := "";
    for i := 0 to |urls|
      invariant content == Joined(urls[..i])
    {
      JoinedSnoc(urls[..i], urls[i]);
      assert urls[..i + 1] == urls[..i] + [urls[i]];
      content := content + urls[i] + "\n";
    }
    assert urls[..|urls|] == urls;
  }

  lemma {:induction false} ExportedLines(rows: seq<Row>)
    ensures forall i :: 0 <= i < |Exported(rows)| ==> '\n' !in Exported(rows)[i]
  {
    if |rows| > 0 {
      ExportedLines(rows[..|rows| - 1]);
      var last := rows[|rows| - 1];
      if Transform(last).Some? {
        NoLineBreak(last);
      }
    }
  }

  /** What a run leaves behind: nothing when the query found no rows, else the output file's content. */
  datatype Outcome = NoAccounts | Written(content: string)

  /** A run over the rows the query returned, in query order. */
  method Run(rows: seq<Row>) returns (outcome: Outcome)
    ensures outcome.NoAccounts? <==> |rows| == 0
    ensures outcome.Written? ==> Split(outcome.content, '\n') == Exported(rows) + [""]
  {
    if |rows| == 0 {
      return NoAccounts;
    }
    var urls, skipped := Export(rows);
    var content := WriteLines(urls);
    ExportedLines(rows);
    LinesOfJoined(urls);
    return Written(content);
  }
}
