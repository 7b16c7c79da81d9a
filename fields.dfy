/**
 * The text of the cells of a row, from `generateTableRow`: every text field
 * is sanitised (quotes stripped, then upper-cased), an unknown track reads
 * `TBD`, and a delayed or late status reads `LATE N MIN`.
 */
module Fields {
  import opened Options
  import opened Text
  import opened Numerals

  const Quote: char := '\''

  // --------------------------------------------------------------- sanitise

  /** `replace(/'/g, '')`: every single quote removed, the rest kept in order. */
  function StripQuotes(s: string): (r: string)
    ensures Quote !in r
  {
    if s == [] then [] else (if s[0] == Quote then [] else [s[0]]) + StripQuotes(s[1..])
  }

  /** Exactly the quotes are removed: the result is shorter by their number. */
  lemma {:induction false} StripQuotesLength(s: string)
    ensures |StripQuotes(s)| == |s| - Occurrences(s, Quote)
  {
    if s != [] {
      StripQuotesLength(s[1..]);
    }
  }

  /** Every character other than the quote is kept as often as it occurs. */
  lemma {:induction false} StripQuotesKeeps(s: string, c: char)
    requires c != Quote
    ensures Occurrences(StripQuotes(s), c) == Occurrences(s, c)
  {
    if s != [] {
      StripQuotesKeeps(s[1..], c);
      OccurrencesAppend(if s[0] == Quote then [] else [s[0]], StripQuotes(s[1..]), c);
    }
  }

  /** Removing quotes distributes over concatenation, so what is kept stays in the input's order. */
  lemma {:induction false} StripQuotesAppend(a: string, b: string)
    ensures StripQuotes(a + b) == StripQuotes(a) + StripQuotes(b)
  {
    if a == [] {
      assert a + b == b;
    } else {
      var h := if a[0] == Quote then [] else [a[0]];
      assert (a + b)[1..] == a[1..] + b;
      assert StripQuotes(a + b) == h + StripQuotes(a[1..] + b);
      assert StripQuotes(a) == h + StripQuotes(a[1..]);
      StripQuotesAppend(a[1..], b);
      assert h + (StripQuotes(a[1..]) + StripQuotes(b)) == (h + StripQuotes(a[1..])) + StripQuotes(b);
    }
  }

  /** A string without quotes is left as it is. */
  lemma {:induction false} StripQuotesNoQuote(s: string)
    requires Quote !in s
    ensures StripQuotes(s) == s
  {
    if s != [] {
      StripQuotesNoQuote(s[1..]);
    }
  }

  /** Stripping quotes adds no character that was not there. */
  lemma {:induction false} StripQuotesKeepsOut(s: string, c: char)
    requires c !in s
    ensures c !in StripQuotes(s)
  {
    if s != [] {
      StripQuotesKeepsOut(s[1..], c);
    }
  }

  /** `toUpperCase` on ASCII: `a`..`z` become `A`..`Z`, every other character stays. */
  function UpperChar(c: char): char {
    if IsLower(c) then (c as int - 32) as char else c
  }

  function ToUpper(s: string): (r: string)
    ensures |r| == |s|
    ensures NoLower(r)
  {
    seq(|s|, i requires 0 <= i < |s| => UpperChar(s[i]))
  }

  /**
   * Each character of the upper-cased text: a lowercase letter moved up to
   * its capital, anything else as it was.
   */
  lemma ToUpperChars(s: string)
    ensures forall i :: 0 <= i < |s| ==>
      (IsLower(s[i]) ==> ToUpper(s)[i] as int == s[i] as int - ('a' as int - 'A' as int)) &&
      (!IsLower(s[i]) ==> ToUpper(s)[i] == s[i])
  {
  }

  /** The sanitising every text field of a record gets: strip quotes, then upper-case. */
  function Sanitize(s: string): (r: string)
    ensures Quote !in r
    ensures NoLower(r)
  {
    var t := StripQuotes(s);
    var r := ToUpper(t);
    assert Quote !in r by {
      forall i | 0 <= i < |r| ensures r[i] != Quote {
        assert t[i] != Quote;
      }
    }
    r
  }

  /** Sanitising twice is sanitising once. */
  lemma SanitizeIdempotent(s: string)
    ensures Sanitize(Sanitize(s)) == Sanitize(s)
  {
    var r := Sanitize(s);
    StripQuotesNoQuote(r);
    assert ToUpper(r) == r;
  }

  /** Sanitising works character by character: it distributes over concatenation. */
  lemma SanitizeAppend(a: string, b: string)
    ensures Sanitize(a + b) == Sanitize(a) + Sanitize(b)
  {
    StripQuotesAppend(a, b);
    var x, y := StripQuotes(a), StripQuotes(b);
    assert ToUpper(x + y) == ToUpper(x) + ToUpper(y) by {
      forall i | 0 <= i < |x + y| ensures ToUpper(x + y)[i] == (ToUpper(x) + ToUpper(y))[i] {
        if i < |x| {
          assert (x + y)[i] == x[i];
        } else {
          assert (x + y)[i] == y[i - |x|];
        }
      }
    }
  }

  /**
   * What sanitising does to one character: a quote is dropped, a lowercase
   * letter becomes the capital in the same alphabet position, and every other
   * character is kept.
   */
  lemma SanitizeChar(c: char)
    ensures c == Quote ==> Sanitize([c]) == []
    ensures c != Quote && !IsLower(c) ==> Sanitize([c]) == [c]
    ensures IsLower(c) ==>
      |Sanitize([c])| == 1 && 'A' <= Sanitize([c])[0] <= 'Z' && Sanitize([c])[0] as int - 'A' as int == c as int - 'a' as int
  {
    assert [c][1..] == [];
    if c != Quote {
      assert StripQuotes([c]) == [c];
    }
  }

  lemma {:induction false} AllQuotes(s: string)
    requires forall i :: 0 <= i < |s| ==> s[i] == Quote
    ensures Occurrences(s, Quote) == |s|
  {
    if s != [] {
      AllQuotes(s[1..]);
    }
  }

  /** A field sanitises to nothing exactly when it holds only quotes. */
  lemma SanitizeEmpty(s: string)
    ensures Sanitize(s) == [] <==> forall i :: 0 <= i < |s| ==> s[i] == Quote
  {
    StripQuotesLength(s);
    if forall i :: 0 <= i < |s| ==> s[i] == Quote {
      AllQuotes(s);
    } else {
      var i :| 0 <= i < |s| && s[i] != Quote;
      OccurrencesNone(s, s[i]);
      StripQuotesKeeps(s, s[i]);
      OccurrencesNone(StripQuotes(s), s[i]);
    }
  }

  /** No `<` survives sanitising unless the field had one. */
  lemma SanitizeNoAngle(s: string)
    requires '<' !in s
    ensures '<' !in Sanitize(s)
  {
    StripQuotesKeepsOut(s, '<');
  }

  lemma SanitizeExample()
    ensures Sanitize("a'b") == "AB"
  {
    assert StripQuotes("a'b") == "ab" by {
      assert "a'b"[1..] == "'b";
      assert "'b"[1..] == "b";
      assert "b"[1..] == "";
    }
    assert ToUpper("ab") == "AB";
  }

  // ------------------------------------------------------------------ track

  /** The track cell: the sanitised track, or `TBD` while it is still unknown. */
  function TrackCell(track: string): (r: string)
    ensures r != []
    ensures Quote !in r && NoLower(r)
  {
    var t := Sanitize(track);
    if t == [] then "TBD" else t
  }

  /** The cell reads `TBD` exactly when the track is empty after sanitising or already says TBD. */
  lemma TrackCellTbd(track: string)
    ensures TrackCell(track) == "TBD" <==> Sanitize(track) == [] || Sanitize(track) == "TBD"
    ensures Sanitize(track) != [] ==> TrackCell(track) == Sanitize(track)
  {
  }

  // ----------------------------------------------------------------- status

  /** `Math.floor(Lateness / 60)`: whole minutes late, rounded down. */
  function LateMinutes(lateness: int): (n: int)
    ensures n * 60 <= lateness < n * 60 + 60
  {
    lateness / 60
  }

  predicate IsLateStatus(status: string) {
    status == "DELAYED" || status == "LATE"
  }

  function LateText(minutes: int): string {
    "LATE " + IntToString(minutes) + " MIN"
  }

  /** Reads the minute count back out of a `LATE N MIN` text. */
  function ParseLateText(s: string): Option<int> {
    if |s| >= 9 && s[..5] == "LATE " && s[|s| - 4..] == " MIN" then ParseInt(s[5..|s| - 4]) else None
  }

  lemma ParseLateTextRoundTrip(minutes: int)
    ensures ParseLateText(LateText(minutes)) == Some(minutes)
  {
    var d := IntToString(minutes);
    var s := LateText(minutes);
    assert s[..5] == "LATE ";
    assert s[|s| - 4..] == " MIN";
    assert s[5..|s| - 4] == d;
    ParseIntToString(minutes);
  }

  /** The characters of a `LATE N MIN` text: capitals, digits, a sign and spaces. */
  lemma LateTextCharacters(n: int)
    ensures Quote !in LateText(n) && '<' !in LateText(n) && NoLower(LateText(n))
  {
    var d := IntToString(n);
    assert LateText(n) == "LATE " + d + " MIN";
    IntToStringCharacters(n);
  }

  /**
   * The status cell. It reads `LATE N MIN` (N the floored minutes) exactly
   * when the status is DELAYED or LATE with N non-zero, or the status already
   * says so itself; in every other case it is the sanitised status.
   */
  function StatusCell(status: string, lateness: int): (r: string)
    ensures var n := LateMinutes(lateness);
      (r == LateText(n)) <==> ((IsLateStatus(Sanitize(status)) && n != 0) || Sanitize(status) == LateText(n))
    ensures !(IsLateStatus(Sanitize(status)) && LateMinutes(lateness) != 0) ==> r == Sanitize(status)
  {
    var s := Sanitize(status);
    var n := LateMinutes(lateness);
    if IsLateStatus(s) && n != 0 then LateText(n) else s
  }

  /** Like every field, the status cell holds no quote and no lowercase letter. */
  lemma StatusCellSanitised(status: string, lateness: int)
    ensures Quote !in StatusCell(status, lateness) && NoLower(StatusCell(status, lateness))
    ensures '<' !in status ==> '<' !in StatusCell(status, lateness)
  {
    LateTextCharacters(LateMinutes(lateness));
    if '<' !in status {
      SanitizeNoAngle(status);
    }
  }

  /** A cell reads `LATE 0 MIN` only when the status itself said so: the rewrite never produces it. */
  lemma StatusCellNeverLateZero(status: string, lateness: int)
    ensures StatusCell(status, lateness) == "LATE 0 MIN" ==> Sanitize(status) == "LATE 0 MIN"
  {
    var n := LateMinutes(lateness);
    if IsLateStatus(Sanitize(status)) && n != 0 {
      ParseLateTextRoundTrip(n);
      ParseLateTextRoundTrip(0);
      assert StatusCell(status, lateness) == LateText(n) != LateText(0) == "LATE 0 MIN";
    }
  }

  lemma StatusCellExamples(status: string)
    requires Sanitize(status) == "DELAYED"
    ensures StatusCell(status, 125) == "LATE 2 MIN"
    ensures StatusCell(status, 30) == "DELAYED"
    ensures StatusCell(status, -30) == "LATE -1 MIN"
  {
  }
}
