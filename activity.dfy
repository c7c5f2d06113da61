/** The activity_log table: the entries the routes write, and how the undo route picks the entry
  * to undo and reads a banked amount back out of an entry's description. */
module Activity {
  import opened Common
  import opened Text
  import opened Booking

  /** An activity_log row; `timestamp` is the text `str` gives of its datetime. */
  datatype LogEntry = LogEntry(actionType: string, description: string,
                               member1: Option<MemberId>, member2: Option<MemberId>,
                               stay: Option<StayId>, timestamp: string)

  const UndoType: string := "undo"
  const UndoPrefix: string := "Undid action: "

  /** `f'{name} banked {points} points from {use_year}'`. */
  function BankedDescription(name: string, points: int, useYear: int): string
  {
    name + " banked " + IntToString(points) + " points from " + IntToString(useYear)
  }

  /** `f"{lender} loaned {points} points to {borrower} for {use_year}"`. */
  function LoanDescription(lender: string, points: int, borrower: string, useYear: int): string
  {
    lender + " loaned " + IntToString(points) + " points to " + borrower + " for " + IntToString(useYear)
  }

  /** `f"{borrower} repaid {points} points to {lender}"`. */
  function RepayDescription(borrower: string, points: int, lender: string): string
  {
    borrower + " repaid " + IntToString(points) + " points to " + lender
  }

  /** `f"{from} transferred {points} points to {to} for {use_year}"`. */
  function TransferDescription(from: string, points: int, to: string, useYear: int): string
  {
    from + " transferred " + IntToString(points) + " points to " + to + " for " + IntToString(useYear)
  }

  /** `f"{name} ({points_share} pts)"` for every share, in order; `None` when a share's member
    * has no member row (the `AttributeError` of reading the name of `None`). */
  function ShareDescriptions(names: map<MemberId, string>, shares: seq<Share>): (r: Option<seq<string>>)
    ensures r.Some? ==> |r.value| == |shares|
    ensures r.Some? <==> forall i :: 0 <= i < |shares| ==> shares[i].member in names
  {
    if shares == [] then Some([])
    else if shares[0].member !in names then None
    else
      var rest := ShareDescriptions(names, shares[1..]);
      if rest.None? then
        assert exists i :: 1 <= i < |shares| && shares[i].member !in names by {
          var i :| 0 <= i < |shares[1..]| && shares[1..][i].member !in names;
          assert shares[i + 1] == shares[1..][i];
        }
        None
      else
        Some([names[shares[0].member] + " (" + IntToString(shares[0].points) + " pts)"] + rest.value)
  }

  /** The description of a stay status change: the resort, the new status, the members' shares
    * joined by ", ", and for a booking the use year whose points were used. */
  function StayDescription(resort: string, status: string, shareTexts: seq<string>, useYear: int): string
  {
    "Stay at " + resort + " " + status + " for " + Join(shareTexts, ", ")
    + (if status == "booked" then " using " + IntToString(useYear) + " points" else "")
  }

  /** The entry `undo_last_action` writes after undoing `e`. */
  function UndoEntry(e: LogEntry, now: string): (u: LogEntry)
    ensures u.actionType == UndoType && StartsWith(u.description, UndoPrefix + e.description)
  {
    LogEntry(UndoType, UndoPrefix + e.description + " (original timestamp: " + e.timestamp + ")",
             e.member1, e.member2, e.stay, now)
  }

  /** `int(description.split(' banked ')[1].split(' points')[0])`; `None` stands for the
    * `IndexError` or `ValueError` answered with "Invalid action description format". */
  function ParseBankedAmount(description: string): (r: Option<int>)
    ensures Find(description, " banked ").None? ==> r.None?
    ensures r.Some? ==> exists i :: 0 <= i < |description| && IsDigit(description[i])
  {
    match SplitTail(description, " banked ")
    case None => None
    case Some(rest) =>
      var h := SplitHead(SplitHead(rest, " banked "), " points");
      var k := Find(description, " banked ").value;
      assert rest == description[k + 8..];
      assert forall i :: 0 <= i < |h| ==> h[i] == description[k + 8 + i];
      ParseInt(h)
  }

  /** The amount written into a banking entry reads back unchanged, provided the member's name
    * does not itself produce an earlier " banked " (inside the name or running into the
    * separator). The use year written after it plays no part. */
  lemma BankedDescriptionRoundTrip(name: string, points: int, useYear: int)
    requires Find(name + " banked", " banked ").None?
    ensures ParseBankedAmount(BankedDescription(name, points, useYear)) == Some(points)
  {
    var ps := IntToString(points);
    var tail := " from " + IntToString(useYear);
    BankedDescriptionParts(name, points, useYear);
    BankedSplit(name, ps + " points" + tail);
    AmountClear(ps, IntToString(useYear));
    NoBankedInside(ps + " points" + tail);
    PointsSplit(ps, tail);
    ParseIntToString(points);
  }

  /** Text with no 'b' after its first character holds no " banked " (whose second letter is
    * 'b'), so splitting it there keeps all of it. */
  lemma NoBankedInside(s: string)
    requires forall i :: 0 < i < |s| ==> s[i] != 'b'
    ensures SplitHead(s, " banked ") == s
  {
    forall j | 0 <= j ensures !OccursAt(s, " banked ", j) {
      if j + 8 <= |s| {
        assert s[j..j + 8][1] == s[j + 1];
      }
    }
    assert Find(s, " banked ").None?;
  }

  /** What follows " banked " in a banking entry holds no 'b'. */
  lemma AmountClear(ps: string, ys: string)
    requires forall i :: 0 <= i < |ps| ==> IsDigit(ps[i]) || ps[i] == '-'
    requires forall i :: 0 <= i < |ys| ==> IsDigit(ys[i]) || ys[i] == '-'
    ensures forall i :: 0 <= i < |ps + " points" + (" from " + ys)| ==> (ps + " points" + (" from " + ys))[i] != 'b'
  {
  }

  lemma BankedDescriptionParts(name: string, points: int, useYear: int)
    ensures BankedDescription(name, points, useYear)
            == name + " banked " + (IntToString(points) + " points" + (" from " + IntToString(useYear)))
  {
  }

  /** Without an earlier " banked ", the first split is at the one the description writes. */
  lemma BankedSplit(name: string, rest: string)
    requires Find(name + " banked", " banked ").None?
    ensures SplitTail(name + " banked " + rest, " banked ") == Some(rest)
  {
    assert " banked "[..7] == " banked";
    SplitAtFirst(name, " banked ", rest, name + " banked");
  }

  /** The written amount holds no space, so the second split is right after it. */
  lemma PointsSplit(ps: string, tail: string)
    requires forall i :: 0 <= i < |ps| ==> IsDigit(ps[i]) || ps[i] == '-'
    ensures SplitHead(ps + " points" + tail, " points") == ps
  {
    forall j | 0 <= j < |ps| ensures !OccursAt(ps + " point", " points", j) {
      assert (ps + " point")[j] == ps[j];
    }
    assert " points"[..6] == " point";
    SplitAtFirst(ps, " points", tail, ps + " point");
  }

  /** A name running into the separator breaks the round trip: whatever a member named
    * "Bob banked" banks, no amount can be read back from the description. */
  lemma BankedDescriptionNameClash(points: int, useYear: int)
    ensures ParseBankedAmount(BankedDescription("Bob banked", points, useYear)).None?
  {
    var ps := IntToString(points);
    var tail := " from " + IntToString(useYear);
    var rest := "banked " + ps + " points" + tail;
    ClashDescription(points, useYear);
    ClashFirstSplit(rest);
    ClashNoSecond(ps, IntToString(useYear), rest);
    ClashSecondSplit(ps, tail);
    ClashParse(ps);
  }

  /** After the first split, the only 'b' left is the one the name leaves at the front. */
  lemma ClashNoSecond(ps: string, ys: string, rest: string)
    requires forall i :: 0 <= i < |ps| ==> IsDigit(ps[i]) || ps[i] == '-'
    requires forall i :: 0 <= i < |ys| ==> IsDigit(ys[i]) || ys[i] == '-'
    requires rest == "banked " + ps + " points" + (" from " + ys)
    ensures SplitHead(rest, " banked ") == rest
  {
    var after := ps + " points" + (" from " + ys);
    AmountClear(ps, ys);
    assert rest == "banked " + after;
    forall i | 0 < i < |rest| ensures rest[i] != 'b' {
      if i >= 7 {
        assert rest[i] == after[i - 7];
      }
    }
    NoBankedInside(rest);
  }

  lemma ClashDescription(points: int, useYear: int)
    ensures BankedDescription("Bob banked", points, useYear)
            == "Bob" + " banked " + ("banked " + IntToString(points) + " points" + (" from " + IntToString(useYear)))
  {
    assert "Bob banked" + " banked " == "Bob" + " banked " + "banked ";
  }

  lemma ClashParse(ps: string)
    requires |ps| > 0 && forall i :: 0 <= i < |ps| ==> IsDigit(ps[i]) || ps[i] == '-'
    ensures ParseInt("banked " + ps).None?
  {
    var head := "banked " + ps;
    assert !WellFormedDigits(head) by { assert !IsDigit(head[0]); }
    assert TrimStart(head) == head;
    assert TrimEnd(head) == head by { assert head[|head| - 1] == ps[|ps| - 1]; }
  }

  lemma ClashFirstSplit(rest: string)
    ensures SplitTail("Bob" + " banked " + rest, " banked ") == Some(rest)
  {
    assert " banked "[..7] == " banked";
    forall j | 0 <= j < 3 ensures !OccursAt("Bob banked", " banked ", j) {
      assert "Bob banked"[j..j + 8][0] == "Bob banked"[j] != ' ';
    }
    SplitAtFirst("Bob", " banked ", rest, "Bob banked");
  }

  lemma ClashSecondSplit(ps: string, tail: string)
    requires |ps| > 0 && forall i :: 0 <= i < |ps| ==> IsDigit(ps[i]) || ps[i] == '-'
    ensures SplitHead("banked " + ps + " points" + tail, " points") == "banked " + ps
  {
    var a := "banked " + ps;
    var early := a + " point";
    assert " points"[..6] == " point";
    forall j | 0 <= j < |a| ensures !OccursAt(early, " points", j) {
      if j != 6 {
        assert early[j..j + 7][0] == early[j] != ' ';
      } else {
        assert early[6..13][1] == ps[0];
      }
    }
    assert "banked " + ps + " points" + tail == a + " points" + tail;
    SplitAtFirst(a, " points", tail, early);
  }

  /** A name with " banked " inside it makes the reversal read the wrong amount: for a member
    * named "A banked 7", whatever was banked, the description reads back as 7 points. */
  lemma BankedDescriptionNameMisread(points: int, useYear: int)
    ensures ParseBankedAmount(BankedDescription("A banked 7", points, useYear)) == Some(7)
  {
    var rest := IntToString(points) + " points" + (" from " + IntToString(useYear));
    MisreadDescription(points, useYear, rest);
    MisreadFirstSplit("7" + " banked " + rest);
    MisreadSecondSplit(rest);
    MisreadParse();
  }

  lemma MisreadDescription(points: int, useYear: int, rest: string)
    requires rest == IntToString(points) + " points" + (" from " + IntToString(useYear))
    ensures BankedDescription("A banked 7", points, useYear) == "A" + " banked " + ("7" + " banked " + rest)
  {
  }

  lemma MisreadFirstSplit(tail: string)
    ensures SplitTail("A" + " banked " + tail, " banked ") == Some(tail)
  {
    assert " banked "[..7] == " banked";
    assert !OccursAt("A banked", " banked ", 0) by { assert "A banked"[0..8][0] == 'A'; }
    SplitAtFirst("A", " banked ", tail, "A banked");
  }

  lemma MisreadSecondSplit(rest: string)
    ensures SplitHead("7" + " banked " + rest, " banked ") == "7"
  {
    assert " banked "[..7] == " banked";
    assert !OccursAt("7 banked", " banked ", 0) by { assert "7 banked"[0..8][0] == '7'; }
    SplitAtFirst("7", " banked ", rest, "7 banked");
  }

  lemma MisreadParse()
    ensures ParseInt(SplitHead("7", " points")) == Some(7)
  {
    assert !OccursAt("7", " points", 0);
    assert SplitHead("7", " points") == "7";
    assert NatToString(7) == "7";
    ParseNatural(7);
  }

  /** Index of the most recent entry whose type is not "undo". */
  function LastNonUndo(log: seq<LogEntry>): (r: Option<nat>)
    ensures r.Some? ==> r.value < |log| && log[r.value].actionType != UndoType
    ensures r.Some? ==> forall j :: r.value < j < |log| ==> log[j].actionType == UndoType
    ensures r.None? <==> forall j :: 0 <= j < |log| ==> log[j].actionType == UndoType
  {
    if log == [] then None
    else if log[|log| - 1].actionType != UndoType then Some(|log| - 1)
    else LastNonUndo(log[..|log| - 1])
  }

  /** Some "undo" entry's description starts with "Undid action: " followed by `description`. */
  predicate UndoneBefore(log: seq<LogEntry>, description: string)
  {
    exists i :: 0 <= i < |log| && log[i].actionType == UndoType
                && StartsWith(log[i].description, UndoPrefix + description)
  }

  /** The entry `undo_last_action` acts on: the most recent entry that is not an undo, refused
    * with "No actions to undo" when there is none and with "already been undone" when an undo
    * entry's description starts with "Undid action: " and its description. */
  function SelectUndo(log: seq<LogEntry>): (r: Result<nat>)
    ensures r.Ok? ==> r.value < |log| && log[r.value].actionType != UndoType
    ensures r.Ok? ==> forall j :: r.value < j < |log| ==> log[j].actionType == UndoType
    ensures r.Ok? ==> !UndoneBefore(log, log[r.value].description)
    ensures r == Err(NothingToUndo) <==> forall j :: 0 <= j < |log| ==> log[j].actionType == UndoType
    ensures r.Err? ==> r.error == NothingToUndo || r.error == AlreadyUndone
    ensures r.Ok? <==> LastNonUndo(log).Some? && !UndoneBefore(log, log[LastNonUndo(log).value].description)
  {
    match LastNonUndo(log)
    case None => Err(NothingToUndo)
    case Some(i) => if UndoneBefore(log, log[i].description) then Err(AlreadyUndone) else Ok(i)
  }

  /** Once an entry has been undone, the next undo is refused: the undo entry is skipped when
    * looking for the last action, which is therefore the same one, and its description now
    * starts an undo entry. */
  lemma SecondUndoRefused(log: seq<LogEntry>, now: string)
    requires SelectUndo(log).Ok?
    ensures SelectUndo(log + [UndoEntry(log[SelectUndo(log).value], now)]) == Err(AlreadyUndone)
  {
    var i := SelectUndo(log).value;
    var log' := log + [UndoEntry(log[i], now)];
    assert LastNonUndo(log') == LastNonUndo(log) by {
      assert log'[..|log'| - 1] == log;
    }
    assert log'[|log|].actionType == UndoType;
    assert UndoneBefore(log', log'[i].description);
  }

  /** The undo check matches descriptions, not entries: once an action has been undone, a later
    * action with the same description (banking the same amount again, say) is refused as
    * already undone. */
  lemma RepeatedActionRefused(log: seq<LogEntry>, now: string, again: LogEntry)
    requires SelectUndo(log).Ok?
    requires again.actionType != UndoType
    requires again.description == log[SelectUndo(log).value].description
    ensures SelectUndo(log + [UndoEntry(log[SelectUndo(log).value], now)] + [again]) == Err(AlreadyUndone)
  {
    var i := SelectUndo(log).value;
    var log' := log + [UndoEntry(log[i], now)] + [again];
    assert LastNonUndo(log') == Some(|log| + 1);
    assert log'[|log|] == UndoEntry(log[i], now);
    assert UndoneBefore(log', again.description);
  }
}
