/**
 The cron jobs of the GUI: which minute and hour fields it accepts and what they denote, the line it
 builds, and adding and deleting jobs in the store.
 */
module CronJobs {
  import opened AnsiRemover
  import opened Basics
  import opened Crontab
  import opened Decimals

  // ---------- fields ----------

  /** str.strip. */
  function Strip(s: string): string
    decreases |s|
  {
    if s == "" then ""
    else if IsSpace(s[0]) then Strip(s[1..])
    else if IsSpace(s[|s| - 1]) then Strip(s[..|s| - 1])
    else s
  }

  /** valid_cron_field, on ASCII digits. A missing bound is None. */
  predicate ValidCronField(value: string, low: Option<int>, high: Option<int>) {
    var v := Strip(value);
    if v == "*" then true
    else if |v| >= 2 && v[..2] == "*/" && AllDigits(v[2..]) then
      var step := ToNat(v[2..]);
      step > 0 && (high.None? || step <= high.value + 1)
    else if !AllDigits(v) then false
    else
      var number := ToNat(v);
      (low.None? || number >= low.value) && (high.None? || number <= high.value)
  }

  /** What cron reads a stripped field as. */
  datatype Field = Every | EveryNth(n: nat) | At(n: nat) | Malformed

  function Reading(v: string): Field {
    if v == "*" then Every
    else if |v| >= 2 && v[..2] == "*/" && AllDigits(v[2..]) then EveryNth(ToNat(v[2..]))
    else if AllDigits(v) then At(ToNat(v))
    else Malformed
  }

  /** The values of the range low..high at which the field fires. */
  ghost function Denotes(f: Field, low: int, high: int): set<int> {
    set x | low <= x <= high && Fires(f, low, x)
  }

  predicate Fires(f: Field, low: int, x: int) {
    match f
    case Every => true
    case EveryNth(n) => n > 0 && (x - low) % n == 0
    case At(n) => x == n
    case Malformed => false
  }

  /** A field is accepted exactly when it fires at least once in its range and a step is at most the
      number of values counted from zero. */
  lemma AcceptedFieldsFire(value: string, low: int, high: int)
    requires low <= high
    ensures var f := Reading(Strip(value));
            ValidCronField(value, Some(low), Some(high))
            <==> Denotes(f, low, high) != {} && (f.EveryNth? ==> f.n <= high + 1)
  {
    var v := Strip(value);
    var f := Reading(v);
    if f.Every? || (f.EveryNth? && f.n > 0) {
      assert f.EveryNth? ==> (low - low) % f.n == 0;
      assert low in Denotes(f, low, high);
    } else if f.At? && low <= f.n <= high {
      assert f.n in Denotes(f, low, high);
    } else {
      assert Denotes(f, low, high) == {};
    }
    assert v == "*" ==> !IsDigit(v[0]);
  }

  // ---------- the line of a job ----------

  function JobLine(minute: string, hour: string, command: string): string {
    minute + " " + hour + " * * * " + command
  }

  /** The end of the run of characters from i on that are (or are not) blank. */
  function EndOfRun(s: string, i: nat, blank: bool): (j: nat)
    requires i <= |s|
    ensures i <= j <= |s| && (forall k | i <= k < j :: IsBlank(s[k]) == blank) && (j < |s| ==> IsBlank(s[j]) != blank)
    decreases |s| - i
  {
    if i < |s| && IsBlank(s[i]) == blank then EndOfRun(s, i + 1, blank) else i
  }

  /** How cron reads a line: n fields separated by blanks, and the rest. */
  function TakeFields(n: nat, s: string): (seq<string>, string)
    decreases n
  {
    if n == 0 then ([], s)
    else
      var i := EndOfRun(s, 0, false);
      var (fields, rest) := TakeFields(n - 1, s[EndOfRun(s, i, true)..]);
      ([s[..i]] + fields, rest)
  }

  predicate Solid(w: string) { w != "" && forall k | 0 <= k < |w| :: !IsBlank(w[k]) }

  lemma TakeOne(n: nat, w: string, rest: string)
    requires n > 0 && Solid(w) && rest != "" && !IsBlank(rest[0])
    ensures TakeFields(n, w + " " + rest)
            == ([w] + TakeFields(n - 1, rest).0, TakeFields(n - 1, rest).1)
  {
    var s := w + " " + rest;
    assert forall k | 0 <= k < |w| :: s[k] == w[k];
    assert s[|w|] == ' ' && s[|w| + 1] == rest[0];
    assert EndOfRun(s, 0, false) == |w|;
    assert EndOfRun(s, |w|, true) == |w| + 1;
    assert s[..|w|] == w && s[|w| + 1..] == rest;
  }

  predicate AllSpace(s: string) { forall k | 0 <= k < |s| :: IsSpace(s[k]) }

  /** Stripping takes white space off both ends and nothing else. */
  lemma {:induction false} StripTakesSpace(s: string) returns (a: string, b: string)
    ensures s == a + Strip(s) + b && AllSpace(a) && AllSpace(b)
    decreases |s|
  {
    a, b := "", "";
    if s == "" {
    } else if IsSpace(s[0]) {
      a, b := StripTakesSpace(s[1..]);
      a := [s[0]] + a;
    } else if IsSpace(s[|s| - 1]) {
      a, b := StripTakesSpace(s[..|s| - 1]);
      b := b + [s[|s| - 1]];
    }
  }

  /** A line is blank for the store exactly when it strips to nothing. */
  lemma BlankStripsToNothing(s: string)
    ensures Strip(s) == "" <==> !NonBlank(s)
  {
    var a, b := StripTakesSpace(s);
    StripEnds(s);
    if Strip(s) == "" {
      assert forall k | 0 <= k < |s| :: s[k] == if k < |a| then a[k] else b[k - |a|];
    } else {
      assert s[|a|] == Strip(s)[0];
    }
  }

  lemma {:induction false} StripEnds(s: string)
    ensures Strip(s) != "" ==> !IsSpace(Strip(s)[0]) && !IsSpace(Strip(s)[|Strip(s)| - 1])
    decreases |s|
  {
    if s == "" {
    } else if IsSpace(s[0]) {
      StripEnds(s[1..]);
    } else if IsSpace(s[|s| - 1]) {
      StripEnds(s[..|s| - 1]);
    }
  }

  lemma ValidFieldsAreSolid(value: string, low: Option<int>, high: Option<int>)
    requires ValidCronField(value, low, high)
    ensures Solid(Strip(value)) && forall k | 0 <= k < |Strip(value)| :: '*' <= Strip(value)[k] <= '9'
  {
    var v := Strip(value);
    if v != "*" && !AllDigits(v) {
      assert v == "*/" + v[2..];
    }
  }

  /** Words, each followed by one blank, and then the rest. */
  function Spaced(words: seq<string>, rest: string): string {
    if words == [] then rest else words[0] + " " + Spaced(words[1..], rest)
  }

  lemma {:induction false} TakeAll(words: seq<string>, rest: string)
    requires (forall k | 0 <= k < |words| :: Solid(words[k])) && rest != "" && !IsBlank(rest[0])
    ensures TakeFields(|words|, Spaced(words, rest)) == (words, rest)
    ensures Spaced(words, rest) != "" && !IsBlank(Spaced(words, rest)[0])
    decreases |words|
  {
    if words == [] {
    } else {
      TakeAll(words[1..], rest);
      TakeOne(|words|, words[0], Spaced(words[1..], rest));
      assert [words[0]] + words[1..] == words;
    }
  }

  /**
   For every minute, hour and command the form accepts, cron splits the line that is stored back into the
   two fields, three stars and the command, whatever blanks the command contains.
   */
  lemma {:induction false} JobRoundTrip(minute: string, hour: string, command: string)
    requires ValidCronField(minute, Some(0), Some(59)) && ValidCronField(hour, Some(0), Some(23)) && Strip(command) != ""
    ensures var fields := [Strip(minute), Strip(hour), "*", "*", "*"];
            TakeFields(|fields|, JobLine(Strip(minute), Strip(hour), Strip(command))) == (fields, Strip(command))
  {
    ValidFieldsAreSolid(minute, Some(0), Some(59));
    ValidFieldsAreSolid(hour, Some(0), Some(23));
    StripEnds(command);
    JobFields(Strip(minute), Strip(hour), Strip(command), [Strip(minute), Strip(hour), "*", "*", "*"]);
  }

  lemma JobFields(m: string, h: string, c: string, fields: seq<string>)
    requires fields == [m, h, "*", "*", "*"] && Solid(m) && Solid(h) && c != "" && !IsBlank(c[0])
    ensures TakeFields(|fields|, JobLine(m, h, c)) == (fields, c)
  {
    JobLineIsSpaced(m, h, c);
    FieldsAreSolid(m, h, fields);
    TakeAll(fields, c);
  }

  lemma FieldsAreSolid(m: string, h: string, fields: seq<string>)
    requires fields == [m, h, "*", "*", "*"] && Solid(m) && Solid(h)
    ensures forall k | 0 <= k < |fields| :: Solid(fields[k])
  {
    assert Solid("*");
  }

  lemma JobLineIsSpaced(m: string, h: string, c: string)
    ensures JobLine(m, h, c) == Spaced([m, h, "*", "*", "*"], c)
  {
    var stars := "*" + " " + ("*" + " " + ("*" + " " + c));
    assert " * * * " + c == " " + stars;
    assert h + " * * * " + c == h + (" * * * " + c);
    assert m + " " + h + " * * * " + c == m + " " + (h + " * * * " + c);
    assert h + " " + stars == h + (" " + stars);
    SpacedFive(m, h, "*", "*", "*", c);
  }

  lemma SpacedFive(a: string, b: string, c: string, d: string, e: string, rest: string)
    ensures Spaced([a, b, c, d, e], rest) == a + " " + (b + " " + (c + " " + (d + " " + (e + " " + rest))))
  {
    assert [a, b, c, d, e][1..] == [b, c, d, e] && [b, c, d, e][1..] == [c, d, e];
    assert [c, d, e][1..] == [d, e] && [d, e][1..] == [e];
    assert Spaced([e], rest) == e + " " + rest;
    assert Spaced([d, e], rest) == d + " " + (e + " " + rest);
    assert Spaced([c, d, e], rest) == c + " " + (d + " " + (e + " " + rest));
    assert Spaced([b, c, d, e], rest) == b + " " + (c + " " + (d + " " + (e + " " + rest)));
  }

  // ---------- the store ----------

  /** list.pop(k): the other lines, in order. */
  function RemoveAt(lines: seq<string>, k: nat): (r: seq<string>)
    requires k < |lines|
    ensures |r| == |lines| - 1 && forall i | 0 <= i < |r| :: r[i] == lines[if i < k then i else i + 1]
  {
    lines[..k] + lines[k + 1..]
  }

  ghost predicate AllSequenceFree(lines: seq<string>) { forall k | 0 <= k < |lines| :: SequenceFree(lines[k]) }

  /** A job line can be stored exactly when its command holds no line break and no control sequence. */
  lemma JobStorableIff(minute: string, hour: string, command: string)
    requires ValidCronField(minute, Some(0), Some(59)) && ValidCronField(hour, Some(0), Some(23))
    ensures var line := JobLine(Strip(minute), Strip(hour), command);
            Storable(line) <==> BreakFree(command) && SequenceFree(command)
  {
    ValidFieldsAreSolid(minute, Some(0), Some(59));
    ValidFieldsAreSolid(hour, Some(0), Some(23));
    var head := Strip(minute) + " " + Strip(hour) + " * * * ";
    assert JobLine(Strip(minute), Strip(hour), command) == head + command;
    assert forall k | 0 <= k < |head| :: ' ' <= head[k] <= '9';
    StorableAfter(head, command);
  }

  lemma {:induction false} StorableAfter(head: string, command: string)
    requires head != "" && !IsSpace(head[0]) && forall k | 0 <= k < |head| :: ' ' <= head[k] <= '9'
    ensures Storable(head + command) <==> BreakFree(command) && SequenceFree(command)
  {
    var line := head + command;
    TextPasses(head, command);
    UnchangedIff(line);
    UnchangedIff(command);
    assert line[0] == head[0];
    assert forall k | 0 <= k < |command| :: command[k] == line[|head| + k];
    if CleanOutput(line) == line {
      assert CleanOutput(command) == (head + CleanOutput(command))[|head|..] == line[|head|..] == command;
    }
  }

  /** Lines of which the store has read all but the last. */
  lemma AppendedStorableIff(lines: seq<string>, job: string)
    requires forall line | line in lines :: NonBlank(line) && BreakFree(line)
    ensures (forall k | 0 <= k < |lines + [job]| :: Storable((lines + [job])[k])) <==> Storable(job) && AllSequenceFree(lines)
  {
    var all := lines + [job];
    assert all[|lines|] == job && forall k | 0 <= k < |lines| :: all[k] == lines[k] && lines[k] in lines;
  }

  /** One job alone is installed as its line and a newline. */
  lemma FirstJob(job: string)
    ensures WriteText([] + [job]) == if job == "" then "" else job + "\n"
  {
    assert [] + [job] == [job];
  }

  lemma RemainingStorableIff(lines: seq<string>, k: nat)
    requires k < |lines| && forall line | line in lines :: NonBlank(line) && BreakFree(line)
    ensures var rest := RemoveAt(lines, k);
            (forall i | 0 <= i < |rest| :: Storable(rest[i])) <==> AllSequenceFree(rest)
  {
    var rest := RemoveAt(lines, k);
    assert forall i | 0 <= i < |rest| :: rest[i] in lines;
  }

  /** The user's crontab and the two actions that rewrite it. `readFails` and `writeFails` are the
      verdicts of the crontab program. */
  class CronStore {
    var text: Option<string>

    /** The list the actions work on; no crontab is an empty list. */
    function Current(): seq<string>
      reads this
    {
      if text.Some? then ReadText(text.value) else []
    }

    lemma CurrentIsProper()
      ensures forall line | line in Current() :: NonBlank(line) && BreakFree(line)
    {
      if text.Some? {
        ReadIsProper(text.value);
      }
    }

    method ReadLines(readFails: bool) returns (lines: Option<seq<string>>)
      ensures lines == if readFails then None else Some(Current())
      ensures !readFails && text.None? ==> lines == Some([])
      ensures lines.Some? ==> forall line | line in lines.value :: NonBlank(line) && BreakFree(line)
    {
      CurrentIsProper();
      lines := if readFails then None else Some(Current());
    }

    /** write_crontab_lines: `crontab -` replaces the whole crontab or leaves it. */
    method WriteLines(lines: seq<string>, writeFails: bool) returns (ok: bool)
      modifies this
      ensures ok == !writeFails
      ensures text == if ok then Some(WriteText(lines)) else old(text)
      ensures ok ==> (Current() == lines <==> forall k | 0 <= k < |lines| :: Storable(lines[k]))
    {
      RoundTripIff(lines);
      ok := !writeFails;
      if ok {
        text := Some(WriteText(lines));
      }
    }

    /** action_cron_add. */
    method Add(minute: string, hour: string, command: string, readFails: bool, writeFails: bool) returns (ok: bool)
      modifies this
      ensures ok <==> Strip(command) != "" && ValidCronField(minute, Some(0), Some(59))
                      && ValidCronField(hour, Some(0), Some(23)) && !readFails && !writeFails
      ensures text == if ok then Some(WriteText(old(Current()) + [JobLine(Strip(minute), Strip(hour), Strip(command))]))
                      else old(text)
      ensures ok && old(text).None? ==> text == Some(JobLine(Strip(minute), Strip(hour), Strip(command)) + "\n")
      ensures ok ==> (Current() == old(Current()) + [JobLine(Strip(minute), Strip(hour), Strip(command))]
                      <==> BreakFree(Strip(command)) && SequenceFree(Strip(command)) && AllSequenceFree(old(Current())))
    {
      if Strip(command) == "" {
        return false;
      }
      StripTwice(minute);
      StripTwice(hour);
      if !(ValidCronField(Strip(minute), Some(0), Some(59)) && ValidCronField(Strip(hour), Some(0), Some(23))) {
        return false;
      }
      var lines := ReadLines(readFails);
      if lines.None? {
        return false;
      }
      var job := JobLine(Strip(minute), Strip(hour), Strip(command));
      JobStorableIff(minute, hour, Strip(command));
      AppendedStorableIff(lines.value, job);
      FirstJob(job);
      ok := WriteLines(lines.value + [job], writeFails);
    }

    /** action_cron_delete; `index` counts from 1. */
    method Delete(index: int, readFails: bool, writeFails: bool) returns (ok: bool)
      modifies this
      ensures ok <==> !readFails && !writeFails && 1 <= index <= |old(Current())|
      ensures text == if ok then Some(WriteText(RemoveAt(old(Current()), index - 1))) else old(text)
      ensures old(text).None? ==> !ok && text.None?
      ensures ok ==> (Current() == RemoveAt(old(Current()), index - 1) <==> AllSequenceFree(RemoveAt(old(Current()), index - 1)))
    {
      var lines := ReadLines(readFails);
      if lines.None? || index < 1 || index > |lines.value| {
        return false;
      }
      RemainingStorableIff(lines.value, index - 1);
      ok := WriteLines(RemoveAt(lines.value, index - 1), writeFails);
    }
  }

  lemma {:induction false} StripTwice(s: string)
    ensures Strip(Strip(s)) == Strip(s)
    decreases |s|
  {
    if s == "" {
    } else if IsSpace(s[0]) {
      StripTwice(s[1..]);
    } else if IsSpace(s[|s| - 1]) {
      StripTwice(s[..|s| - 1]);
    }
  }

  lemma {:induction false} CleanAllConcat(a: seq<string>, b: seq<string>)
    ensures CleanAll(a + b) == CleanAll(a) + CleanAll(b)
    decreases |a|
  {
    if a == [] {
      assert a + b == b;
    } else {
      assert (a + b)[0] == a[0] && (a + b)[1..] == a[1..] + b;
      CleanAllConcat(a[1..], b);
    }
  }

  lemma {:induction false} DropBlankConcat(a: seq<string>, b: seq<string>)
    ensures DropBlank(a + b) == DropBlank(a) + DropBlank(b)
    decreases |a|
  {
    if a == [] {
      assert a + b == b;
    } else {
      assert (a + b)[0] == a[0] && (a + b)[1..] == a[1..] + b;
      DropBlankConcat(a[1..], b);
    }
  }

  /** Two rounds of writing and reading give the lines back only if there was nothing to delete in them. */
  lemma TwoRoundsIff(lines: seq<string>)
    requires forall line | line in lines :: NonBlank(line) && BreakFree(line)
    ensures DropBlank(CleanAll(DropBlank(CleanAll(lines)))) == lines <==> AllSequenceFree(lines)
  {
    var once := DropBlank(CleanAll(lines));
    CleanAllUnchangedIff(lines);
    CleanLines(lines);
    DropBlankKeeps(lines);
    DropBlankKeeps(CleanAll(lines));
    CleanLines(once);
    DropBlankKeeps(CleanAll(once));
    if DropBlank(CleanAll(once)) == lines {
      assert once == CleanAll(lines) && CleanAll(once) == lines;
      forall k | 0 <= k < |lines|
        ensures SequenceFree(lines[k])
      {
        CleanShrinks(lines[k]);
        CleanShrinks(once[k]);
        UnchangedIff(lines[k]);
      }
    }
  }

  /** The store after adding a storable job to what it reads from any installed crontab. */
  lemma AddedLines(lines: seq<string>, job: string)
    requires (forall line | line in lines :: NonBlank(line) && BreakFree(line)) && Storable(job)
    ensures ReadText(WriteText(lines + [job])) == DropBlank(CleanAll(lines)) + [job]
  {
    var all := lines + [job];
    assert all[|lines|] == job && forall k | 0 <= k < |lines| :: all[k] == lines[k] && lines[k] in lines;
    ReadOfWrite(all);
    CleanAllConcat(lines, [job]);
    UnchangedIff(job);
    assert CleanAll([job]) == [job] && DropBlank([job]) == [job];
    DropBlankConcat(CleanAll(lines), [job]);
  }

  /**
   Whatever crontab is installed: adding a job and reading the store shows the old lines and the new one
   exactly when the job is storable and no old line contains a control sequence; and after adding a
   storable job, deleting the last line restores the list under the same condition on the old lines.
   */
  lemma AddThenDeleteLast(text: string, job: string)
    ensures var lines := ReadText(text);
            ReadText(WriteText(lines + [job])) == lines + [job] <==> Storable(job) && AllSequenceFree(lines)
    ensures var lines := ReadText(text);
            var added := ReadText(WriteText(lines + [job]));
            Storable(job) ==>
              && |added| > 0 && added[|added| - 1] == job
              && (ReadText(WriteText(RemoveAt(added, |added| - 1))) == lines <==> AllSequenceFree(lines))
  {
    var lines := ReadText(text);
    ReadIsProper(text);
    RoundTripIff(lines + [job]);
    AppendedStorableIff(lines, job);
    if Storable(job) {
      var once := DropBlank(CleanAll(lines));
      AddedLines(lines, job);
      assert RemoveAt(once + [job], |once|) == once;
      ReadIsProper(WriteText(lines));
      ReadOfWrite(lines);
      assert forall k | 0 <= k < |once| :: once[k] in once;
      ReadOfWrite(once);
      TwoRoundsIff(lines);
    }
  }

  /**
   Whatever crontab is installed, deleting line k and reading again gives the other lines, in order and
   unchanged, exactly when none of them contains a control sequence.
   */
  lemma DeleteKeepsTheRest(text: string, k: nat)
    requires k < |ReadText(text)|
    ensures var rest := RemoveAt(ReadText(text), k);
            ReadText(WriteText(rest)) == rest <==> AllSequenceFree(rest)
  {
    ReadIsProper(text);
    RoundTripIff(RemoveAt(ReadText(text), k));
    RemainingStorableIff(ReadText(text), k);
  }

  // ---------- what an edit does to the rest of the crontab ----------

  lemma {:induction false} LinesConcat(a: seq<string>, b: seq<string>)
    ensures Lines(a + b) == Lines(a) + Lines(b)
    decreases |a|
  {
    if a == [] {
      assert a + b == b;
    } else {
      assert (a + b)[0] == a[0] && (a + b)[1..] == a[1..] + b;
      LinesConcat(a[1..], b);
    }
  }

  lemma WrittenLines(lines: seq<string>)
    requires lines == [] || lines[|lines| - 1] != ""
    ensures WriteText(lines) == Lines(lines)
  {
    WriteIsLines(lines);
    if lines != [] && Join(lines) == "" {
      OnlyOneEmptyLine(lines);
    }
  }

  /** Adding a job appends its line to the installed text, and changes nothing else in it, exactly if the
      text is newline-terminated lines that the store can hold. */
  lemma AddAppendsIff(text: string, job: string)
    requires job != ""
    ensures WriteText(ReadText(text) + [job]) == text + (job + "\n") <==> Proper(text)
  {
    var lines := ReadText(text);
    ReadIsProper(text);
    assert lines != [] ==> lines[|lines| - 1] in lines;
    WrittenLines(lines);
    WrittenLines(lines + [job]);
    LinesConcat(lines, [job]);
    assert Lines([job]) == job + "\n";
    TextRoundTripIff(text);
    SameEnding(WriteText(lines), text, job + "\n");
  }

  lemma SameEnding(a: string, b: string, end: string)
    ensures a + end == b + end <==> a == b
  {
    if a + end == b + end {
      assert |a| == |b|;
      assert a == (a + end)[..|a|] && b == (b + end)[..|b|];
    }
  }

  /** From such a text, deleting line k takes out that line and its newline, and nothing else. */
  lemma DeleteCutsOneLine(text: string, k: nat)
    requires Proper(text) && k < |ReadText(text)|
    ensures ReadText(text) == SplitLines(text)
    ensures WriteText(RemoveAt(ReadText(text), k)) == Lines(SplitLines(text)[..k]) + Lines(SplitLines(text)[k + 1..])
  {
    ProperReads(text);
    var lines := SplitLines(text);
    LinesConcat(lines[..k], lines[k + 1..]);
    var rest := RemoveAt(lines, k);
    assert rest != [] ==> rest[|rest| - 1] in lines;
    WrittenLines(RemoveAt(lines, k));
  }

  // ---------- what the store cannot hold ----------

  /** The form accepts a command with a line break in it, and the store does not give it back. */
  lemma BrokenCommandIsLost(lines: seq<string>)
    ensures var command := "a\nb";
            var job := JobLine(Strip("*"), Strip("*"), Strip(command));
            && ValidCronField("*", Some(0), Some(59)) && ValidCronField("*", Some(0), Some(23)) && Strip(command) == command
            && ReadText(WriteText(lines + [job])) != lines + [job]
  {
    var command := "a\nb";
    var job := JobLine(Strip("*"), Strip("*"), Strip(command));
    JobStorableIff("*", "*", command);
    assert IsBreak(command[1]);
    RoundTripIff(lines + [job]);
    assert (lines + [job])[|lines|] == job;
  }

  /** A sequence at the front goes. */
  lemma FrontSequenceGoes(t: string)
    ensures CleanOutput([ESC, '[', 'm'] + t) == CleanOutput(t)
  {
    var s := [ESC, '[', 'm'] + t;
    SpanIs(IsParameter, s, 2, 2);
    SpanIs(IsIntermediate, s, 2, 2);
    assert s[3..] == t;
  }

  /** ESC, a whole sequence, and a tail that makes another one with that ESC. */
  lemma NestedSequence(tail: string)
    requires (forall k | 0 <= k < |tail| :: tail[k] != ESC) && |tail| >= 2 && tail[0] == '[' && tail[1] == 'm'
    ensures CleanOutput([ESC] + ([ESC, '[', 'm'] + tail)) == [ESC] + tail
    ensures CleanOutput([ESC] + tail) == tail[2..]
  {
    NoMatchStep(ESC, [ESC, '[', 'm'] + tail);
    FrontSequenceGoes(tail);
    TextPasses(tail, "");
    assert tail + "" == tail;
    assert [ESC] + tail == [ESC, '[', 'm'] + tail[2..];
    FrontSequenceGoes(tail[2..]);
    TextPasses(tail[2..], "");
    assert tail[2..] + "" == tail[2..];
  }

  /** What the store reads from lines that stay non-blank. */
  lemma ReadCleaned(lines: seq<string>, cleaned: seq<string>)
    requires |lines| == |cleaned|
    requires forall k | 0 <= k < |lines| :: BreakFree(lines[k]) && CleanOutput(lines[k]) == cleaned[k] && NonBlank(cleaned[k])
    ensures ReadText(WriteText(lines)) == cleaned
  {
    ReadOfWrite(lines);
    CleanLines(lines);
    assert CleanAll(lines) == cleaned;
    DropBlankKeeps(cleaned);
  }

  /** Two lines, of which the first is not clean after one cleaning. */
  lemma ReadTwoDropOne(first: string, other: string, once: string, twice: string)
    requires BreakFree(first) && BreakFree(other) && BreakFree(once) && NonBlank(once) && NonBlank(other) && NonBlank(twice)
    requires CleanOutput(first) == once && CleanOutput(other) == other && CleanOutput(once) == twice
    ensures var lines := ReadText(WriteText([first, other]));
            lines == [once, other] && ReadText(WriteText(RemoveAt(lines, 1))) == [twice]
  {
    ReadCleaned([first, other], [once, other]);
    assert RemoveAt([once, other], 1) == [once];
    ReadCleaned([once], [twice]);
  }

  /**
   An installed crontab of two lines from which deleting the second changes the first: reading leaves a
   control sequence in the first line, which the next reading deletes.
   */
  lemma DeleteChangesAnother(tail: string, other: string)
    requires tail == "[mX" && other == "y"
    ensures var lines := ReadText(WriteText([[ESC] + ([ESC, '[', 'm'] + tail), other]));
            lines == [[ESC] + tail, other] && ReadText(WriteText(RemoveAt(lines, 1))) == ["X"]
  {
    var first, cleaned := [ESC] + ([ESC, '[', 'm'] + tail), [ESC] + tail;
    NestedSequence(tail);
    assert cleaned[1] == '[' && other[0] == 'y';
    TextPasses(other, "");
    assert other + "" == other;
    assert tail[2..] == "X" && tail[2..][0] == 'X';
    ReadTwoDropOne(first, other, cleaned, tail[2..]);
  }
}
