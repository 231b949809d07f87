/** `select_item`: the numbered terminal picker. The lines the user types are a sequence;
    once it is used up, `read_line` reports end of input by leaving the line empty. */
module Utils {
  import opened Base
  import opened Text

  /** How one input line is read: empty after trimming, a number in `1..=count`, or
      anything else. */
  datatype LineKind = Blank | Chosen(n: nat) | Rejected

  function Classify(line: string, count: nat): (k: LineKind)
    ensures k.Chosen? ==> 1 <= k.n <= count
  {
    var t := Trim(line);
    if t == [] then Blank
    else match ParseUsize(t)
      case Some(n) => if 0 < n <= count then Chosen(n) else Rejected
      case None => Rejected
  }

  /** How each of the typed lines reads. */
  function Kinds(count: nat, lines: seq<string>): (ks: seq<LineKind>)
    ensures |ks| == |lines|
  {
    if lines == [] then [] else [Classify(lines[0], count)] + Kinds(count, lines[1..])
  }

  lemma {:induction false} KindsAt(count: nat, lines: seq<string>, i: nat)
    requires i < |lines|
    ensures Kinds(count, lines)[i] == Classify(lines[i], count)
  {
    if i > 0 {
      KindsAt(count, lines[1..], i - 1);
    }
  }

  lemma {:induction false} KindsChosenInRange(count: nat, lines: seq<string>)
    ensures forall i :: 0 <= i < |lines| && Kinds(count, lines)[i].Chosen? ==>
      1 <= Kinds(count, lines)[i].n <= count
  {
    forall i | 0 <= i < |lines| && Kinds(count, lines)[i].Chosen?
      ensures 1 <= Kinds(count, lines)[i].n <= count
    {
      KindsAt(count, lines, i);
    }
  }

  /** The outcome of the loop over the kinds of the lines read: the first blank line ends
      it with `None`, the first line that names an item ends it with that 1-based index,
      every rejected line makes the prompt repeat; running out of lines reads as blank. */
  function Outcome(ks: seq<LineKind>): Option<nat> {
    if ks == [] then None
    else match ks[0]
      case Blank => None
      case Chosen(n) => Some(n)
      case Rejected => Outcome(ks[1..])
  }

  /** The index `select_item` returns for the lines the user types. */
  function Pick(count: nat, lines: seq<string>): (r: Option<nat>)
    ensures r.Some? ==> 1 <= r.value <= count
  {
    var ks := Kinds(count, lines);
    KindsChosenInRange(count, lines);
    OutcomeInRange(ks, count);
    Outcome(ks)
  }

  lemma {:induction false} OutcomeInRange(ks: seq<LineKind>, count: nat)
    requires forall i :: 0 <= i < |ks| && ks[i].Chosen? ==> 1 <= ks[i].n <= count
    ensures Outcome(ks).Some? ==> 1 <= Outcome(ks).value <= count
  {
    if ks != [] && ks[0].Rejected? {
      assert forall i :: 1 <= i < |ks| ==> ks[1..][i - 1] == ks[i];
      OutcomeInRange(ks[1..], count);
    }
  }

  /** A line is blank exactly when it is all whitespace. */
  lemma ClassifyBlank(line: string, count: nat)
    ensures Classify(line, count) == Blank <==> AllWhitespace(line)
  {
  }

  predicate ChosenAt(ks: seq<LineKind>, j: int, n: nat) {
    0 <= j < |ks| && ks[j] == Chosen(n) && forall i :: 0 <= i < j ==> ks[i] == Rejected
  }

  /** The loop answers `Some(n)` exactly when some line names item `n` and every line
      before it was rejected. */
  lemma {:induction false} OutcomeChosen(ks: seq<LineKind>, n: nat)
    ensures Outcome(ks) == Some(n) <==> exists j :: ChosenAt(ks, j, n)
  {
    if ks != [] {
      OutcomeChosen(ks[1..], n);
      if ks[0] == Rejected {
        if Outcome(ks) == Some(n) {
          var j :| ChosenAt(ks[1..], j, n);
          assert ChosenAt(ks, j + 1, n);
        }
        if exists j :: ChosenAt(ks, j, n) {
          var j :| ChosenAt(ks, j, n);
          assert ChosenAt(ks[1..], j - 1, n);
        }
      } else if ks[0] == Chosen(n) {
        assert ChosenAt(ks, 0, n);
      }
    }
  }

  /** The same, for the lines themselves. */
  lemma PickChosen(count: nat, lines: seq<string>, n: nat)
    ensures Pick(count, lines) == Some(n) <==> exists j :: ChosenAt(Kinds(count, lines), j, n)
  {
    assert Pick(count, lines) == Outcome(Kinds(count, lines));
    OutcomeChosen(Kinds(count, lines), n);
  }

  /** A blank line ends the loop with `None` when everything before it was rejected; the
      end of input counts as a blank line. */
  lemma {:induction false} OutcomeBlank(ks: seq<LineKind>, j: nat)
    requires j <= |ks|
    requires forall i :: 0 <= i < j ==> ks[i] == Rejected
    requires j < |ks| ==> ks[j] == Blank
    ensures Outcome(ks) == None
  {
    if j > 0 {
      assert forall i :: 0 <= i < j - 1 ==> ks[1..][i] == ks[i + 1];
      OutcomeBlank(ks[1..], j - 1);
    }
  }

  lemma PickBlank(count: nat, lines: seq<string>, j: nat)
    requires j <= |lines|
    requires forall i :: 0 <= i < j ==> Classify(lines[i], count) == Rejected
    requires j < |lines| ==> AllWhitespace(lines[j])
    ensures Pick(count, lines) == None
  {
    var ks := Kinds(count, lines);
    forall i | 0 <= i < j ensures ks[i] == Rejected {
      KindsAt(count, lines, i);
    }
    if j < |lines| {
      ClassifyBlank(lines[j], count);
      KindsAt(count, lines, j);
    }
    OutcomeBlank(ks, j);
  }

  /** `{i + 1}: {item}` for one listed item. */
  function Label(number: nat, item: string): string {
    NatToString(number) + ": " + item + "\n"
  }

  function ListFrom(items: seq<string>, i: nat): string
    requires i <= |items|
    decreases |items| - i
  {
    if i == |items| then "" else Label(i + 1, items[i]) + ListFrom(items, i + 1)
  }

  /** What one round prints before reading: every item, numbered, then the prompt. */
  function Listing(items: seq<string>): string {
    ListFrom(items, 0)
  }

  const PromptSuffix: string := " (number/empty): "
  const InvalidMessage: string := "invalid selection input\n\n"

  /** Everything the loop writes to standard error while reading lines of kinds `ks`. */
  function Transcript(prompt: string, items: seq<string>, ks: seq<LineKind>): string {
    if ks != [] && ks[0] == Rejected then Round(prompt, items) + InvalidMessage + Transcript(prompt, items, ks[1..])
    else Round(prompt, items)
  }

  /** What one round prints before reading a line. */
  function Round(prompt: string, items: seq<string>): string {
    Listing(items) + prompt + PromptSuffix
  }

  /** One round of the loop at position `k`: a rejected line prints the round and the
      complaint and moves on; any other line, or the end of input, prints the round and
      settles the outcome. */
  lemma RoundStep(prompt: string, items: seq<string>, ks: seq<LineKind>, k: nat, shown: string)
    requires k <= |ks|
    requires shown + Transcript(prompt, items, ks[k..]) == Transcript(prompt, items, ks)
    ensures k < |ks| && ks[k] == Rejected ==>
      Outcome(ks[k..]) == Outcome(ks[k + 1..])
      && (shown + Round(prompt, items)) + InvalidMessage + Transcript(prompt, items, ks[k + 1..])
         == Transcript(prompt, items, ks)
    ensures k == |ks| || ks[k] != Rejected ==>
      Outcome(ks[k..]) == (if k < |ks| && ks[k].Chosen? then Some(ks[k].n) else None)
      && shown + Round(prompt, items) == Transcript(prompt, items, ks)
  {
    var round := Round(prompt, items);
    if k < |ks| && ks[k] == Rejected {
      assert ks[k..][1..] == ks[k + 1..];
      assert Transcript(prompt, items, ks[k..])
        == round + InvalidMessage + Transcript(prompt, items, ks[k + 1..]);
      Associative(shown, round, InvalidMessage);
      Associative(shown, round + InvalidMessage, Transcript(prompt, items, ks[k + 1..]));
    }
  }

  /** `utils::select_item`. */
  method SelectItem(prompt: string, items: seq<string>, input: seq<string>)
    returns (choice: Option<nat>, shown: string)
    ensures choice == Pick(|items|, input)
    ensures choice.Some? ==> 1 <= choice.value <= |items|
    ensures shown == Transcript(prompt, items, Kinds(|items|, input))
  {
    ghost var ks := Kinds(|items|, input);
    shown := "";
    var k := 0;
    while true
      invariant 0 <= k <= |input|
      invariant Outcome(ks) == Outcome(ks[k..])
      invariant shown + Transcript(prompt, items, ks[k..]) == Transcript(prompt, items, ks)
      decreases |input| - k
    {
      RoundStep(prompt, items, ks, k, shown);
      shown := shown + Round(prompt, items);
      var line := if k < |input| then input[k] else "";
      var kind := Classify(line, |items|);
      if k < |input| {
        KindsAt(|items|, input, k);
      }
      if kind == Blank {
        choice := None;
        return;
      }
      if kind.Chosen? {
        choice := Some(kind.n);
        return;
      }
      shown := shown + InvalidMessage;
      k := k + 1;
    }
  }

  /** With no items nothing can be chosen: only a blank line (or the end of input) ends
      the loop, and it answers `None`. */
  lemma NoItemsNoChoice(lines: seq<string>, line: string)
    ensures Pick(0, lines) == None
    ensures Classify(line, 0) != Blank ==> Classify(line, 0) == Rejected
  {
  }

  /** Typing the number printed next to an item selects that item. */
  lemma ChoosingPrintedNumber(count: nat, k: nat, rest: seq<string>)
    requires 1 <= k <= count && k <= USIZE_MAX
    ensures Pick(count, [NatToString(k)] + rest) == Some(k)
  {
    var s := NatToString(k);
    assert !IsWhitespace(s[0]) && !IsWhitespace(s[|s| - 1]);
    assert TrimStart(s) == s;
    assert TrimEnd(s) == s;
    ParseUsizeOfNatToString(k);
    assert Kinds(count, [s] + rest)[0] == Chosen(k);
  }

  lemma {:induction false} ListFromAppend(items: seq<string>, x: string, i: nat)
    requires i <= |items|
    ensures ListFrom(items + [x], i) == ListFrom(items, i) + Label(|items| + 1, x)
    decreases |items| - i
  {
    if i < |items| {
      ListFromAppend(items, x, i + 1);
      assert (items + [x])[i] == items[i];
    } else {
      assert (items + [x])[i] == x;
    }
  }

  /** Items are listed numbered from 1 in input order: adding an item at the end adds
      exactly its own line, numbered one past the others. */
  lemma ListingAppend(items: seq<string>, x: string)
    ensures Listing(items + [x]) == Listing(items) + Label(|items| + 1, x)
  {
    ListFromAppend(items, x, 0);
  }
}
