/** The summary shown after validating a batch: a success note when no row has
    an error, otherwise a count of the rows with errors, the first five of
    them with their messages, and a line for the rest. */
module Utils {
  import opened Dicts

  /** The errors of one row: field name to message, in insertion order. */
  type RowErrors = Dict<string>

  const ValidMessage := "<div class='alert alert-success'>Data is valid.</div>"

  /** How many rows the summary lists at most. */
  const MaxShown := 5

  const Footer := "</ul></div>"

  function Min(a: nat, b: nat): nat
  {
    if a <= b then a else b
  }

  /* ---------------------------------------------------------------------- */
  /* Decimal numerals                                                       */
  /* ---------------------------------------------------------------------- */

  function Digit(d: nat): char
    requires d < 10
  {
    "0123456789"[d]
  }

  function DigitValue(c: char): nat
  {
    if '0' <= c <= '9' then c as int - '0' as int else 0
  }

  /** A natural number in decimal, as Python's `str(n)` writes it. */
  function ShowNat(n: nat): (s: string)
    ensures |s| >= 1
    ensures forall k :: 0 <= k < |s| ==> '0' <= s[k] <= '9'
    ensures n >= 10 ==> s[0] != '0'
  {
    if n < 10 then [Digit(n)] else ShowNat(n / 10) + [Digit(n % 10)]
  }

  /** The value of a string of decimal digits. */
  function ReadNat(s: string): nat
  {
    if s == [] then 0 else 10 * ReadNat(s[..|s| - 1]) + DigitValue(s[|s| - 1])
  }

  /** Reading a numeral back gives the number written, so a row label names
      exactly one row. */
  lemma {:induction false} ShowNatRoundTrip(n: nat)
    ensures ReadNat(ShowNat(n)) == n
  {
    var s := ShowNat(n);
    if n >= 10 {
      ShowNatRoundTrip(n / 10);
      DigitRoundTrip(n % 10);
      assert s[..|s| - 1] == ShowNat(n / 10) && s[|s| - 1] == Digit(n % 10);
      assert ReadNat(s) == 10 * ReadNat(ShowNat(n / 10)) + DigitValue(Digit(n % 10));
      assert n == 10 * (n / 10) + n % 10;
    } else {
      DigitRoundTrip(n);
      assert s == [Digit(n)] && s[..0] == [];
      assert ReadNat(s) == 10 * ReadNat([]) + DigitValue(Digit(n));
    }
  }

  lemma DigitRoundTrip(d: nat)
    requires d < 10
    ensures DigitValue(Digit(d)) == d
  {
  }

  /* ---------------------------------------------------------------------- */
  /* The summary                                                            */
  /* ---------------------------------------------------------------------- */

  function Pair(entry: (string, string)): string
  {
    entry.0 + ": " + entry.1
  }

  /** The `"field: message"` pairs of one row, joined by `", "` in map order. */
  function JoinPairs(e: RowErrors): string
  {
    if |e| == 0 then ""
    else if |e| == 1 then Pair(e[0])
    else JoinPairs(e[..|e| - 1]) + ", " + Pair(e[|e| - 1])
  }

  /** The list item of row `i`, labelled with its one-based position. */
  function RowItem(i: nat, e: RowErrors): string
  {
    "<li>Row " + ShowNat(i + 1) + ": " + JoinPairs(e) + "</li>"
  }

  function Header(count: nat): string
  {
    "<div class='alert alert-danger'><strong>" + ShowNat(count) + " validation errors found:</strong><ul>"
  }

  function Overflow(hidden: nat): string
  {
    "<li>...and " + ShowNat(hidden) + " more errors</li>"
  }

  /** The positions of the rows with at least one error, in order. */
  function ErroneousRows(errs: seq<RowErrors>): seq<nat>
  {
    if errs == [] then []
    else ErroneousRows(errs[..|errs| - 1]) + if errs[|errs| - 1] != [] then [|errs| - 1] else []
  }

  /** The erroneous rows are the positions whose map is not empty, each
      once and in increasing order. */
  lemma {:induction false} ErroneousRowsFacts(errs: seq<RowErrors>)
    ensures var rows := ErroneousRows(errs);
            && (forall i :: 0 <= i < |errs| ==> (i in rows <==> errs[i] != []))
            && (forall k :: 0 <= k < |rows| ==> rows[k] < |errs|)
            && (forall a, b :: 0 <= a < b < |rows| ==> rows[a] < rows[b])
  {
    if errs != [] {
      var init := errs[..|errs| - 1];
      ErroneousRowsFacts(init);
      var rows := ErroneousRows(errs);
      assert forall i :: 0 <= i < |init| ==> init[i] == errs[i];
    }
  }

  /** The number of rows whose error map is not empty. */
  function ErrorCount(errs: seq<RowErrors>): nat
  {
    if errs == [] then 0
    else ErrorCount(errs[..|errs| - 1]) + if errs[|errs| - 1] != [] then 1 else 0
  }

  /** The rows the summary lists. */
  function Listed(errs: seq<RowErrors>): (r: seq<nat>)
    ensures forall k :: 0 <= k < |r| ==> r[k] < |errs|
  {
    ErroneousRowsFacts(errs);
    var rows := ErroneousRows(errs);
    rows[..Min(MaxShown, |rows|)]
  }

  /** The list items of `rows`, in order. */
  function Items(errs: seq<RowErrors>, rows: seq<nat>): string
    requires forall k :: 0 <= k < |rows| ==> rows[k] < |errs|
  {
    if rows == [] then ""
    else Items(errs, rows[..|rows| - 1]) + RowItem(rows[|rows| - 1], errs[rows[|rows| - 1]])
  }

  /** The summary for the error maps of a batch, one per row. */
  function Message(errs: seq<RowErrors>): string
  {
    var count := ErrorCount(errs);
    if count == 0 then ValidMessage
    else Header(count) + Items(errs, Listed(errs)) + OverflowLine(count) + Footer
  }

  /** The line for the erroneous rows beyond the first five, if any. */
  function OverflowLine(count: nat): string
  {
    if count > MaxShown then Overflow(count - MaxShown) else ""
  }

  /* ---------------------------------------------------------------------- */
  /* Properties of the summary                                              */
  /* ---------------------------------------------------------------------- */

  /** The count in the header is the number of erroneous rows. */
  lemma {:induction false} ErrorCountRows(errs: seq<RowErrors>)
    ensures ErrorCount(errs) == |ErroneousRows(errs)|
  {
    if errs != [] {
      ErrorCountRows(errs[..|errs| - 1]);
    }
  }

  lemma HeaderIsNotValid(count: nat, rest: string)
    ensures Header(count) + rest != ValidMessage
  {
    var prefix := "<div class='alert alert-danger'><strong>";
    assert (Header(count) + rest)[..|prefix|] == prefix;
    assert ValidMessage[24] != prefix[24];
  }

  /** The success note is given exactly when no row has an error, and only
      then; an empty batch is valid. */
  lemma ValidIffNoErrors(errs: seq<RowErrors>)
    ensures Message(errs) == ValidMessage <==> forall i :: 0 <= i < |errs| ==> errs[i] == []
  {
    ErrorCountRows(errs);
    ErroneousRowsFacts(errs);
    var rows := ErroneousRows(errs);
    if ErrorCount(errs) == 0 {
      assert rows == [];
      forall i | 0 <= i < |errs| ensures errs[i] == [] {
        assert i !in rows;
      }
    } else {
      assert rows[0] in rows;
      HeaderIsNotValid(ErrorCount(errs), Message(errs)[|Header(ErrorCount(errs))|..]);
    }
  }

  /** At most five rows are listed: erroneous rows in their original order,
      and no erroneous row is left out in favour of a later one. */
  lemma ListedAreFirst(errs: seq<RowErrors>)
    ensures var listed := Listed(errs);
            && |listed| == Min(MaxShown, ErrorCount(errs))
            && (forall k :: 0 <= k < |listed| ==> listed[k] < |errs| && errs[listed[k]] != [])
            && (forall a, b :: 0 <= a < b < |listed| ==> listed[a] < listed[b])
            && forall i :: 0 <= i < |errs| && errs[i] != [] && i !in listed ==>
                 |listed| == MaxShown && forall k :: 0 <= k < |listed| ==> listed[k] < i
  {
    ErrorCountRows(errs);
    ErroneousRowsFacts(errs);
    var rows := ErroneousRows(errs);
    var listed := Listed(errs);
    assert |listed| == Min(MaxShown, |rows|);
    assert forall k :: 0 <= k < |listed| ==> listed[k] == rows[k];
    forall k | 0 <= k < |listed| ensures listed[k] < |errs| && errs[listed[k]] != [] {
      assert rows[k] in rows;
    }
    forall i | 0 <= i < |errs| && errs[i] != [] && i !in listed
      ensures |listed| == MaxShown && forall k :: 0 <= k < |listed| ==> listed[k] < i
    {
      assert i in rows;
      var p :| 0 <= p < |rows| && rows[p] == i;
      assert p >= |listed|;
    }
  }

  /** The overflow line counts the erroneous rows that are not listed, and
      there are such rows exactly when more than five rows have errors. */
  lemma OverflowCountsTheRest(errs: seq<RowErrors>)
    ensures ErrorCount(errs) > MaxShown <==> |ErroneousRows(errs)| > |Listed(errs)|
    ensures ErrorCount(errs) > MaxShown ==>
              ErrorCount(errs) - MaxShown == |ErroneousRows(errs)[MaxShown..]|
  {
    ErrorCountRows(errs);
  }

  /** The list items of rows that grow by one position `i`. */
  lemma ItemsSnoc(errs: seq<RowErrors>, rows: seq<nat>, i: nat)
    requires forall k :: 0 <= k < |rows| ==> rows[k] < |errs|
    requires i < |errs|
    ensures Items(errs, rows + [i]) == Items(errs, rows) + RowItem(i, errs[i])
  {
    assert (rows + [i])[..|rows|] == rows;
  }

  /** How one more row changes the rows listed so far. */
  lemma ShownStep(errs: seq<RowErrors>, i: nat, shown: nat)
    requires i < |errs| && shown == Min(MaxShown, |ErroneousRows(errs[..i])|)
    ensures var (before, after) := (ErroneousRows(errs[..i]), ErroneousRows(errs[..i + 1]));
            if errs[i] != [] && shown < MaxShown
            then Min(MaxShown, |after|) == shown + 1 && after[..shown + 1] == before[..shown] + [i]
            else Min(MaxShown, |after|) == shown && after[..shown] == before[..shown]
  {
    var before := ErroneousRows(errs[..i]);
    assert errs[..i + 1][..i] == errs[..i];
    var after := ErroneousRows(errs[..i + 1]);
    if errs[i] != [] {
      assert after == before + [i];
      if shown < MaxShown {
        assert |before| == shown;
        assert after[..shown + 1] == before[..shown] + [i];
      } else {
        assert after[..shown] == before[..shown];
      }
    } else {
      assert after == before;
    }
  }

  /** Appending a row's pieces one by one to the header and the items so far
      appends that row's item to the items. */
  lemma AppendItem(header: string, items: string, i: nat, e: RowErrors)
    ensures header + items + "<li>Row " + ShowNat(i + 1) + ": " + JoinPairs(e) + "</li>" == header + (items + RowItem(i, e))
  {
  }

  /** The summary built up to row `i`: the header and the items of the rows
      listed so far. */
  ghost predicate ShownUpTo(errs: seq<RowErrors>, header: string, i: nat, message: string, shown: nat, listed: seq<nat>)
  {
    && i <= |errs|
    && shown == Min(MaxShown, |ErroneousRows(errs[..i])|)
    && listed == ErroneousRows(errs[..i])[..shown]
    && (forall k :: 0 <= k < |listed| ==> listed[k] < i)
    && message == header + Items(errs, listed)
  }

  /** One turn of the loop over the rows: a row with errors is listed while
      fewer than five are. */
  method ShowRow(errs: seq<RowErrors>, ghost header: string, i: nat, message: string, shown: nat, ghost listed: seq<nat>)
    returns (message': string, shown': nat, ghost listed': seq<nat>)
    requires i < |errs| && ShownUpTo(errs, header, i, message, shown, listed)
    ensures ShownUpTo(errs, header, i + 1, message', shown', listed')
  {
    ShownStep(errs, i, shown);
    ghost var after := ErroneousRows(errs[..i + 1]);
    message', shown', listed' := message, shown, listed;
    if errs[i] != [] && shown < MaxShown {
      message' := message' + "<li>Row " + ShowNat(i + 1) + ": ";
      message' := message' + JoinPairs(errs[i]);
      message' := message' + "</li>";
      AppendItem(header, Items(errs, listed), i, errs[i]);
      ItemsSnoc(errs, listed, i);
      listed' := listed + [i];
      shown' := shown + 1;
      assert after[..shown'] == listed';
      assert message' == header + Items(errs, listed');
    } else {
      assert after[..shown'] == listed';
    }
  }

  /** After the last row the listed rows are those of the summary, and
      fewer rows are shown than have errors exactly when there are more than
      five. */
  lemma ShownAll(errs: seq<RowErrors>, header: string, message: string, shown: nat, listed: seq<nat>)
    requires ShownUpTo(errs, header, |errs|, message, shown, listed)
    ensures listed == Listed(errs) && message == header + Items(errs, Listed(errs))
    ensures shown < ErrorCount(errs) <==> ErrorCount(errs) > MaxShown
    ensures shown <= ErrorCount(errs)
    ensures ErrorCount(errs) > MaxShown ==> shown == MaxShown
  {
    assert errs[..|errs|] == errs;
    ErrorCountRows(errs);
  }

  /** Builds the summary the way the page does: a running message and a count
      of the rows shown so far. */
  method FormatValidationMessage(errs: seq<RowErrors>) returns (message: string)
    ensures message == Message(errs)
  {
    if |errs| == 0 {
      assert ErrorCount(errs) == 0;
      return ValidMessage;
    }
    var errorCount := ErrorCount(errs);
    if errorCount == 0 {
      return ValidMessage;
    }
    message := Header(errorCount);
    var errorShown := 0;
    ghost var listed: seq<nat> := [];
    for i := 0 to |errs|
      invariant ShownUpTo(errs, Header(errorCount), i, message, errorShown, listed)
    {
      message, errorShown, listed := ShowRow(errs, Header(errorCount), i, message, errorShown, listed);
    }
    ShownAll(errs, Header(errorCount), message, errorShown, listed);
    if errorShown < errorCount {
      message := message + Overflow(errorCount - errorShown);
    } else {
      assert message + OverflowLine(errorCount) == message;
    }
    message := message + Footer;
  }
}
