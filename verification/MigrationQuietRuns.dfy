/** What becomes of a migration whose source is left alone from now on: it can finish exactly
    when the feed has not outrun it, and all its runs end exact exactly when every chosen key
    is safe. From this follow the exact conditions on the target at the start, on the size of
    the source, and on the moment at which a store is destroyed. */
module MigrationQuietRuns {
  import opened Base
  import opened Utf8
  import opened ChangeFeed
  import opened Enumeration
  import opened Identities
  import opened MigrationOptions
  import opened Migration
  import opened MigrationConvergence

  // ------------------------------------------------------------------ every state

  lemma AdvanceRuns(g: Setup, s: System, move: Move)
    requires Running(g, s)
    ensures var r := Advance(g, s, move); r.Ok? ==> Running(g, r.value)
  {
    if Advance(g, s, move).Ok? {
      match move
      case MutateSource(_, _, _) =>
      case Destroy(_, _) =>
      case RecordOne => RecordKeepsView(g, s);
      case Copy(listing) => CopyKeepsShape(g, s, listing);
      case ReceiveOne => ReplayKeepsShape(g, s, move);
      case ApplyStep => ReplayKeepsShape(g, s, move);
    }
  }

  // --------------------------------------------------------------------- outrunning

  /** The channel still holds the next record the stream has not seen. */
  ghost predicate NotOutrun(g: Setup, s: System) {
    s.stream.next + g.limits.capacity >= |s.history|
  }

  ghost predicate Finishes(g: Setup, s: System, moves: seq<Move>)
    requires Standing(s.stream, s.history)
  {
    var r := AdvanceAll(g, s, moves);
    r.Ok? && Drained(r.value)
  }

  /** What a receive of the migrating program gives in each situation. */
  lemma RecvEverything(g: Setup, s: System)
    requires Running(g, s)
    ensures var (out, stream) := Recv(s.feed, s.stream);
            if Position(s.stream) == |s.history| then out.Pending?
            else if s.stream.replay != [] then out.Delivered? && stream == s.stream.(replay := s.stream.replay[1..])
            else if NotOutrun(g, s) then out.Delivered? && stream == s.stream.(next := s.stream.next + 1)
            else out.Lagged?
  {
    var p := Position(s.stream);
    if p < |s.history| && (s.stream.replay != [] || NotOutrun(g, s)) {
      var rest := if s.stream.replay != [] then s.stream.(replay := s.stream.replay[1..]) else s.stream.(next := s.stream.next + 1);
      NextRecord(g.limits, s.feed, s.history, s.stream, rest);
    }
  }

  lemma OutrunStays(g: Setup, s: System, move: Move)
    requires Running(g, s) && !NotOutrun(g, s) && Advance(g, s, move).Ok?
    ensures !NotOutrun(g, Advance(g, s, move).value)
  {
    match move
    case Copy(listing) => CopyKeepsShape(g, s, listing);
    case ReceiveOne => RecvEverything(g, s);
    case _ =>
  }

  lemma {:induction false} OutrunNeverFinishes(g: Setup, s: System, moves: seq<Move>)
    requires Running(g, s) && !NotOutrun(g, s)
    ensures !Finishes(g, s, moves)
    decreases |moves|
  {
    if moves == [] {
      RecvEverything(g, s);
    } else if Advance(g, s, moves[0]).Ok? {
      AdvanceRuns(g, s, moves[0]);
      OutrunStays(g, s, moves[0]);
      OutrunNeverFinishes(g, Advance(g, s, moves[0]).value, moves[1..]);
    }
  }

  // ----------------------------------------------------------------- a finishing run

  predicate Copying(pc: Pc) {
    pc.AtStart? || pc.AtCollections? || pc.InCollection?
  }

  function CollectionsLeft(pc: Pc): nat {
    match pc
    case AtCollections(cs) => 2 * |cs| + 1
    case InCollection(_, _, _, _, cs) => 2 * |cs| + 2
    case _ => 0
  }

  function WorkLeft(pc: Pc): nat {
    match pc
    case InCollection(_, reading, items, keys, _) => 3 * |keys| + 2 * |reading| + |items|
    case _ => 0
  }

  /** A chosen key that will not come out right. */
  ghost predicate Wrong(g: Setup, s: System, x: Option<Pair>)
    requires Standing(s.stream, s.history)
  {
    x.Some? && Chosen(g.options, x.value.0) && !Safe(g.options, Some(g.page), ViewOf(s), x.value)
  }

  /** A complete listing for the copier's next move; a wrong key that does not fit the page is
      shown last. */
  lemma NamesListing(g: Setup, s: System, wrong: Option<Pair>) returns (listing: seq<Text>)
    requires Running(g, s)
    ensures ListsCollections(s.source, s.names, Outstanding(s), listing)
    ensures wrong.Some? && wrong.value in s.source && |ListableNames(s.names, Outstanding(s))| > g.page ==>
              wrong.value.0 !in Page(listing, g.page)
  {
    var all := ListableNames(s.names, Outstanding(s));
    if wrong.Some? && wrong.value in s.source {
      listing := LastInListing(all, wrong.value.0);
    } else {
      listing := SomeListing(all);
    }
  }

  lemma KeysListing(g: Setup, s: System, c: Text, wrong: Option<Pair>) returns (listing: seq<Text>)
    requires Running(g, s)
    ensures ListsKeys(s.source, Outstanding(s), c, listing)
    ensures wrong.Some? && wrong.value in s.source && wrong.value.0 == c && |ListableKeys(s.source, Outstanding(s), c)| > g.page ==>
              wrong.value.1 !in Page(listing, g.page)
  {
    var all := ListableKeys(s.source, Outstanding(s), c);
    assert forall x | x in s.source && x.0 == c :: x.1 in KeysOf(s.source, c);
    if wrong.Some? && wrong.value in s.source && wrong.value.0 == c {
      listing := LastInListing(all, wrong.value.1);
    } else {
      listing := SomeListing(all);
    }
  }

  lemma CopyListing(g: Setup, s: System, wrong: Option<Pair>) returns (listing: seq<Text>)
    requires Running(g, s) && Copying(s.pc)
    ensures CopyMove(g, s, listing).Ok?
    ensures Wrong(g, s, wrong) && IsListing(g.options, s.pc) ==>
              !Safe(g.options, Some(g.page), ViewOf(s).(pc := CopyMove(g, s, listing).value.pc), wrong.value)
  {
    listing := [];
    var o, v, room := g.options, ViewOf(s), Some(g.page);
    if s.pc.AtStart? {
      listing := NamesListing(g, s, wrong);
      if Wrong(g, s, wrong) {
        BeginLoses(o, room, v, v.(pc := AtCollections(Page(listing, g.page))), Page(listing, g.page), wrong.value);
      }
    } else if IsListing(o, s.pc) {
      var c := s.pc.collections[0];
      listing := KeysListing(g, s, c, wrong);
      if Wrong(g, s, wrong) {
        EnterLoses(o, room, v, v.(pc := InCollection(c, [], [], Page(listing, g.page), s.pc.collections[1..])), c,
                   Page(listing, g.page), wrong.value);
      }
    }
  }

  /** The copier can always move on, getting nearer to its end; a wrong key can be kept
      wrong. */
  lemma CopyStep(g: Setup, s: System, wrong: Option<Pair>) returns (listing: seq<Text>)
    requires Running(g, s) && Copying(s.pc)
    ensures var r := CopyMove(g, s, listing);
            && r.Ok? && Running(g, r.value) && r.value == s.(target := r.value.target, pc := r.value.pc)
            && (Wrong(g, s, wrong) ==> Wrong(g, r.value, wrong))
            && (Copying(r.value.pc) || r.value.pc == Replaying)
  {
    listing := CopyListing(g, s, wrong);
    CopyKeepsShape(g, s, listing);
    if Wrong(g, s, wrong) {
      if IsListing(g.options, s.pc) {
        assert ViewOf(CopyMove(g, s, listing).value) == ViewOf(s).(pc := CopyMove(g, s, listing).value.pc);
      } else {
        CopyDecides(g, s, listing, Some(g.page), wrong.value);
      }
    }
  }

  lemma CopyGetsNearer(g: Setup, s: System, listing: seq<Text>)
    requires Standing(s.stream, s.history) && Copying(s.pc) && CopyMove(g, s, listing).Ok?
    ensures var pc := CopyMove(g, s, listing).value.pc;
            Copying(pc) ==>
              && !pc.AtStart?
              && (s.pc.AtStart? || CollectionsLeft(pc) < CollectionsLeft(s.pc)
                  || (CollectionsLeft(pc) == CollectionsLeft(s.pc) && WorkLeft(pc) < WorkLeft(s.pc)))
  {
  }

  lemma {:induction false} FinishCopy(g: Setup, s: System, wrong: Option<Pair>) returns (moves: seq<Move>, end: System)
    requires Running(g, s) && Copying(s.pc)
    ensures Untouched(moves) && AdvanceAll(g, s, moves) == Ok(end)
    ensures Running(g, end) && end == s.(target := end.target, pc := Replaying)
    ensures Wrong(g, s, wrong) ==> Wrong(g, end, wrong)
    decreases s.pc.AtStart?, CollectionsLeft(s.pc), WorkLeft(s.pc)
  {
    var listing := CopyStep(g, s, wrong);
    CopyGetsNearer(g, s, listing);
    var next := CopyMove(g, s, listing).value;
    var rest: seq<Move> := [];
    end := next;
    if Copying(next.pc) {
      rest, end := FinishCopy(g, next, wrong);
    }
    moves := [Copy(listing)] + rest;
    assert moves[1..] == rest;
  }

  function ReplayRank(pc: Pc): nat {
    match pc
    case Applying(_, _) => 2
    case Putting(_, _) => 1
    case _ => 0
  }

  /** One move of the replay that keeps it going and a wrong key wrong. */
  ghost predicate GoesOn(g: Setup, s: System, r: System, wrong: Option<Pair>)
    requires Standing(s.stream, s.history)
  {
    && Running(g, r) && NotOutrun(g, r) && !Copying(r.pc) && r.source == s.source
    && (Wrong(g, s, wrong) ==> Wrong(g, r, wrong))
  }

  lemma ApplyGoesOn(g: Setup, s: System, wrong: Option<Pair>)
    requires Running(g, s) && (s.pc.Applying? || s.pc.Putting?) && NotOutrun(g, s)
    ensures var r := ReplayMove(g.options, s, ApplyStep);
            && r.Ok? && GoesOn(g, s, r.value, wrong)
            && r.value == s.(target := r.value.target, pc := r.value.pc) && ReplayRank(r.value.pc) < ReplayRank(s.pc)
  {
    ReplayKeepsShape(g, s, ApplyStep);
    if Wrong(g, s, wrong) {
      ReplayDecides(g, s, ApplyStep, Some(g.page), wrong.value);
    }
  }

  lemma ReceiveGoesOn(g: Setup, s: System, wrong: Option<Pair>)
    requires Running(g, s) && s.pc == Replaying && Position(s.stream) < |s.history| && NotOutrun(g, s)
    ensures var r := ReplayMove(g.options, s, ReceiveOne);
            && r.Ok? && GoesOn(g, s, r.value, wrong)
            && r.value == s.(stream := r.value.stream, pc := r.value.pc) && Position(r.value.stream) > Position(s.stream)
  {
    RecvEverything(g, s);
    ReplayKeepsShape(g, s, ReceiveOne);
    if Wrong(g, s, wrong) {
      ReplayDecides(g, s, ReceiveOne, Some(g.page), wrong.value);
    }
  }

  lemma RecordGoesOn(g: Setup, s: System, wrong: Option<Pair>)
    requires Running(g, s) && s.pc == Replaying && Position(s.stream) == |s.history| && s.unrecorded != []
    ensures var r := Advance(g, s, RecordOne);
            r.Ok? && GoesOn(g, s, r.value, wrong) && |r.value.unrecorded| < |s.unrecorded|
  {
    RecordKeepsView(g, s);
  }

  /** The replay can always move on until nothing is left, as long as it is not outrun:
      records are taken before the next one is made. */
  lemma ReplayStep(g: Setup, s: System, wrong: Option<Pair>) returns (move: Move)
    requires Running(g, s) && !Copying(s.pc) && NotOutrun(g, s)
    requires s.pc != Replaying || Position(s.stream) < |s.history| || s.unrecorded != []
    ensures move.RecordOne? || move.ReceiveOne? || move.ApplyStep?
    ensures var r := Advance(g, s, move);
            && r.Ok? && GoesOn(g, s, r.value, wrong)
            && |r.value.unrecorded| <= |s.unrecorded|
            && (|r.value.unrecorded| == |s.unrecorded| ==>
                  && |r.value.history| - Position(r.value.stream) <= |s.history| - Position(s.stream)
                  && (|r.value.history| - Position(r.value.stream) == |s.history| - Position(s.stream) ==>
                        ReplayRank(r.value.pc) < ReplayRank(s.pc)))
  {
    if s.pc != Replaying {
      move := ApplyStep;
      ApplyGoesOn(g, s, wrong);
    } else if Position(s.stream) < |s.history| {
      move := ReceiveOne;
      ReceiveGoesOn(g, s, wrong);
    } else {
      move := RecordOne;
      RecordGoesOn(g, s, wrong);
    }
  }

  lemma {:induction false} FinishReplay(g: Setup, s: System, wrong: Option<Pair>) returns (moves: seq<Move>, end: System)
    requires Running(g, s) && !Copying(s.pc) && NotOutrun(g, s)
    ensures Untouched(moves) && AdvanceAll(g, s, moves) == Ok(end)
    ensures Running(g, end) && Drained(end) && end.source == s.source
    ensures Wrong(g, s, wrong) ==> Wrong(g, end, wrong)
    decreases |s.unrecorded|, |s.history| - Position(s.stream), ReplayRank(s.pc)
  {
    if s.pc == Replaying && Position(s.stream) == |s.history| && s.unrecorded == [] {
      RecvEverything(g, s);
      moves, end := [], s;
    } else {
      var move := ReplayStep(g, s, wrong);
      var rest;
      rest, end := FinishReplay(g, Advance(g, s, move).value, wrong);
      moves := [move] + rest;
      assert moves[1..] == rest;
    }
  }

  lemma {:induction false} AdvanceAllConcat(g: Setup, s: System, a: seq<Move>, b: seq<Move>)
    requires Standing(s.stream, s.history) && AdvanceAll(g, s, a).Ok?
    ensures Standing(AdvanceAll(g, s, a).value.stream, AdvanceAll(g, s, a).value.history)
    ensures AdvanceAll(g, s, a + b) == AdvanceAll(g, AdvanceAll(g, s, a).value, b)
    decreases |a|
  {
    if a == [] {
      assert a + b == b;
    } else {
      assert (a + b)[1..] == a[1..] + b;
      AdvanceAllConcat(g, Advance(g, s, a[0]).value, a[1..], b);
    }
  }

  /** From every state that is not outrun there is a run to the end, with the source left
      alone; a wrong key can be kept wrong all the way. */
  lemma FinishingRun(g: Setup, s: System, wrong: Option<Pair>) returns (moves: seq<Move>, end: System)
    requires Running(g, s) && NotOutrun(g, s)
    ensures Untouched(moves) && AdvanceAll(g, s, moves) == Ok(end)
    ensures Running(g, end) && Drained(end) && end.source == s.source
    ensures Wrong(g, s, wrong) ==> Wrong(g, end, wrong)
  {
    if Copying(s.pc) {
      var copying, copied := FinishCopy(g, s, wrong);
      var replaying;
      replaying, end := FinishReplay(g, copied, wrong);
      AdvanceAllConcat(g, s, copying, replaying);
      moves := copying + replaying;
    } else {
      moves, end := FinishReplay(g, s, wrong);
    }
  }

  /** A migration can come to its end exactly when the feed has not outrun it; and if it can,
      it can with the source left alone, backlog or not. */
  lemma CanFinishIff(g: Setup, s: System)
    requires Running(g, s)
    ensures (exists moves :: Finishes(g, s, moves)) <==> NotOutrun(g, s)
    ensures NotOutrun(g, s) ==> exists moves :: Untouched(moves) && Finishes(g, s, moves)
  {
    if NotOutrun(g, s) {
      var moves, end := FinishingRun(g, s, None);
      assert Finishes(g, s, moves);
    } else {
      forall moves ensures !Finishes(g, s, moves) {
        OutrunNeverFinishes(g, s, moves);
      }
    }
  }

  // -------------------------------------------------------------------- exactness

  lemma QuietStepKeeps(g: Setup, s: System, move: Move)
    requires Running(g, s) && Sound(g.options, Some(g.page), ViewOf(s))
    requires !move.MutateSource? && !move.Destroy? && Advance(g, s, move).Ok?
    ensures Running(g, Advance(g, s, move).value)
    ensures Sound(g.options, Some(g.page), ViewOf(Advance(g, s, move).value))
  {
    AdvanceRuns(g, s, move);
    var o, r := g.options, Advance(g, s, move).value;
    match move
    case RecordOne => RecordKeepsView(g, s);
    case Copy(listing) =>
      CopyKeepsShape(g, s, listing);
      forall x: Pair | Chosen(o, x.0) ensures Safe(o, Some(g.page), ViewOf(r), x) {
        CopyKeeps(g, s, listing, Some(g.page), x);
      }
    case ReceiveOne => QuietReplayKeeps(g, s, move);
    case ApplyStep => QuietReplayKeeps(g, s, move);
  }

  lemma QuietReplayKeeps(g: Setup, s: System, move: Move)
    requires Running(g, s) && Sound(g.options, Some(g.page), ViewOf(s))
    requires (move.ReceiveOne? || move.ApplyStep?) && ReplayMove(g.options, s, move).Ok?
    ensures Running(g, ReplayMove(g.options, s, move).value)
    ensures Sound(g.options, Some(g.page), ViewOf(ReplayMove(g.options, s, move).value))
  {
    ReplayKeepsShape(g, s, move);
    forall x: Pair | Chosen(g.options, x.0) ensures Safe(g.options, Some(g.page), ViewOf(ReplayMove(g.options, s, move).value), x) {
      ReplayDecides(g, s, move, Some(g.page), x);
    }
  }

  lemma {:induction false} QuietRunKeeps(g: Setup, s: System, moves: seq<Move>)
    requires Running(g, s) && Sound(g.options, Some(g.page), ViewOf(s)) && Untouched(moves)
    ensures var r := AdvanceAll(g, s, moves); r.Ok? ==> Running(g, r.value) && Sound(g.options, Some(g.page), ViewOf(r.value))
    decreases |moves|
  {
    if moves != [] && Advance(g, s, moves[0]).Ok? {
      QuietStepKeeps(g, s, moves[0]);
      QuietRunKeeps(g, Advance(g, s, moves[0]).value, moves[1..]);
    }
  }

  /** A target key that is no new name of anything is never removed. */
  lemma {:induction false} StrangerStays(g: Setup, s: System, moves: seq<Move>, t: Pair)
    requires Running(g, s) && t in s.target && !IsImage(g.options, t)
    ensures var r := AdvanceAll(g, s, moves); r.Ok? ==> t in r.value.target
    decreases |moves|
  {
    if moves != [] && Advance(g, s, moves[0]).Ok? {
      AdvanceRuns(g, s, moves[0]);
      match moves[0] {
        case Copy(listing) => CopyKeepsShape(g, s, listing);
        case ReceiveOne => ReplayKeepsShape(g, s, moves[0]);
        case ApplyStep => ReplayKeepsShape(g, s, moves[0]);
        case _ =>
      }
      StrangerStays(g, Advance(g, s, moves[0]).value, moves[1..], t);
    }
  }

  /** With the source left alone, every run that comes to its end leaves exactly the chosen
      part of the source in the target, if and only if every chosen key is safe and the target
      holds nothing foreign. */
  lemma QuietExactIff(g: Setup, s: System)
    requires Running(g, s) && NotOutrun(g, s)
    ensures (forall moves | Untouched(moves) :: EndsExact(g, s, moves)) <==> Sound(g.options, Some(g.page), ViewOf(s))
  {
    if Sound(g.options, Some(g.page), ViewOf(s)) {
      forall moves | Untouched(moves) ensures EndsExact(g, s, moves) {
        QuietRunKeeps(g, s, moves);
        var r := AdvanceAll(g, s, moves);
        if r.Ok? && Drained(r.value) {
          DrainedDecides(g, r.value, Some(g.page));
        }
      }
    } else {
      var moves := InexactRun(g, s);
    }
  }

  lemma InexactRun(g: Setup, s: System) returns (moves: seq<Move>)
    requires Running(g, s) && NotOutrun(g, s) && !Sound(g.options, Some(g.page), ViewOf(s))
    ensures Untouched(moves) && Finishes(g, s, moves) && !EndsExact(g, s, moves)
  {
    var end;
    if t :| t in s.target && !IsImage(g.options, t) {
      moves, end := FinishingRun(g, s, None);
      StrangerStays(g, s, moves, t);
      SettledIff(g.options, end.source, end.target);
    } else {
      var x: Pair :| Chosen(g.options, x.0) && !Safe(g.options, Some(g.page), ViewOf(s), x);
      moves, end := FinishingRun(g, s, Some(x));
      DrainedDecides(g, end, Some(g.page));
      SettledIff(g.options, end.source, end.target);
    }
  }

  // ------------------------------------------------------- from the start: sizes

  /** Every chosen key of the source is already right in the target, or is sure to be shown:
      the source's collections fit one page, and so do the keys of its collection. */
  ghost predicate AllShown(g: Setup, s: System) {
    forall x | x in s.source && Chosen(g.options, x.0) ::
      SameIn(g.options, s.source, s.target, x) || (|s.names| <= g.page && |KeysOf(s.source, x.0)| <= g.page)
  }

  lemma StartRoom(g: Setup, s: System)
    requires Started(g, s)
    ensures Standing(s.stream, s.history) && Outstanding(s) == []
    ensures ListableNames(s.names, []) == s.names
    ensures forall c :: ListableKeys(s.source, [], c) == KeysOf(s.source, c)
  {
    StartsRunning(g, s);
    forall c ensures ListableKeys(s.source, [], c) == KeysOf(s.source, c) {
    }
  }

  /** At the start a key is safe when both stores agree about it or it is there and shown. */
  lemma StartSafeIff(g: Setup, s: System, x: Pair)
    requires Started(g, s) && Chosen(g.options, x.0)
    ensures Standing(s.stream, s.history)
    ensures Safe(g.options, Some(g.page), ViewOf(s), x) <==>
            || SameIn(g.options, s.source, s.target, x)
            || (x in s.source && |s.names| <= g.page && |KeysOf(s.source, x.0)| <= g.page)
  {
    StartRoom(g, s);
  }

  lemma LeftoverIff(o: Options, s: System)
    ensures NoLeftovers(o, s) <==>
            && (forall t | t in s.target :: IsImage(o, t))
            && forall x: Pair | Chosen(o, x.0) && x !in s.source :: SameIn(o, s.source, s.target, x)
  {
    if NoLeftovers(o, s) {
      forall t | t in s.target ensures IsImage(o, t) {
        var x :| x in s.source && Chosen(o, x.0) && Image(o, x) == t;
      }
      forall x: Pair | Chosen(o, x.0) && x !in s.source ensures SameIn(o, s.source, s.target, x) {
        if Image(o, x) in s.target {
          var y :| y in s.source && Chosen(o, y.0) && Image(o, y) == Image(o, x);
          ImageInjective(o, x, y);
        }
      }
    }
    if (forall t | t in s.target :: IsImage(o, t)) && forall x: Pair | Chosen(o, x.0) && x !in s.source :: SameIn(o, s.source, s.target, x) {
      forall t | t in s.target ensures exists x | x in s.source && Chosen(o, x.0) :: Image(o, x) == t {
        assert IsImage(o, t);
        var x: Pair :| Chosen(o, x.0) && Image(o, x) == t;
        assert x in s.source || SameIn(o, s.source, s.target, x);
      }
    }
  }

  lemma StartSoundIff(g: Setup, s: System)
    requires Started(g, s)
    ensures Standing(s.stream, s.history)
    ensures Sound(g.options, Some(g.page), ViewOf(s)) <==> NoLeftovers(g.options, s) && AllShown(g, s)
  {
    StartRoom(g, s);
    LeftoverIff(g.options, s);
    forall x: Pair | Chosen(g.options, x.0)
      ensures Safe(g.options, Some(g.page), ViewOf(s), x) <==>
              || SameIn(g.options, s.source, s.target, x)
              || (x in s.source && |s.names| <= g.page && |KeysOf(s.source, x.0)| <= g.page)
    {
      StartSafeIff(g, s, x);
    }
  }

  /** Migrating a source that is left alone ends exact in every run, whatever order its
      listings come in, if and only if the target starts without leftovers and everything
      chosen that is not there yet fits the pages. */
  lemma QuietMigrationExactIff(g: Setup, s: System)
    requires Started(g, s)
    ensures Standing(s.stream, s.history)
    ensures (forall moves | Untouched(moves) :: EndsExact(g, s, moves)) <==> NoLeftovers(g.options, s) && AllShown(g, s)
  {
    StartsRunning(g, s);
    StartSoundIff(g, s);
    QuietExactIff(g, s);
  }

  // ----------------------------------------------- from the start: a moving source

  /** Whatever can be listed from here on fits a page. */
  ghost predicate SizesFit(g: Setup, v: View) {
    Copying(v.pc) ==>
      && (v.pc.AtStart? ==> |ListableNames(v.names, v.pending)| <= g.page)
      && forall c | Chosen(g.options, c) :: RoomForKeys(Some(g.page), v, c)
  }

  lemma SizesFitLater(g: Setup, v: View, w: View)
    requires SizesFit(g, v) && w == v.(target := w.target, pc := w.pc) && Copying(v.pc) && !w.pc.AtStart?
    ensures SizesFit(g, w)
  {
    forall c | Chosen(g.options, c) ensures RoomForKeys(Some(g.page), w, c) {
      assert RoomForKeys(Some(g.page), v, c);
    }
  }

  lemma CopySizes(g: Setup, s: System, listing: seq<Text>)
    requires Running(g, s) && SizesFit(g, ViewOf(s)) && CopyMove(g, s, listing).Ok?
    ensures Running(g, CopyMove(g, s, listing).value) && SizesFit(g, ViewOf(CopyMove(g, s, listing).value))
  {
    CopyKeepsShape(g, s, listing);
    SizesFitLater(g, ViewOf(s), ViewOf(CopyMove(g, s, listing).value));
  }

  lemma ReplaySizes(g: Setup, s: System, move: Move)
    requires (move.ReceiveOne? || move.ApplyStep?) && ReplayMove(g.options, s, move).Ok?
    ensures !Copying(ReplayMove(g.options, s, move).value.pc)
  {
  }

  lemma SizesStayFit(g: Setup, s: System, move: Move)
    requires Running(g, s) && SizesFit(g, ViewOf(s)) && !move.MutateSource? && !move.Destroy? && Advance(g, s, move).Ok?
    ensures Running(g, Advance(g, s, move).value)
    ensures SizesFit(g, ViewOf(Advance(g, s, move).value))
  {
    match move
    case RecordOne => RecordKeepsView(g, s);
    case Copy(listing) => CopySizes(g, s, listing);
    case ReceiveOne =>
      AdvanceRuns(g, s, move);
      ReplaySizes(g, s, move);
    case ApplyStep =>
      AdvanceRuns(g, s, move);
      ReplaySizes(g, s, move);
  }

  lemma {:induction false} QuietListingsFit(g: Setup, s: System, moves: seq<Move>)
    requires Running(g, s) && Untouched(moves) && SizesFit(g, ViewOf(s))
    ensures ListingsFit(g, s, moves)
    decreases |moves|
  {
    if moves != [] && Advance(g, s, moves[0]).Ok? {
      if moves[0].Copy? {
        OneListingFits(g, s, moves[0].listing);
      }
      SizesStayFit(g, s, moves[0]);
      QuietListingsFit(g, Advance(g, s, moves[0]).value, moves[1..]);
    }
  }

  lemma OneListingFits(g: Setup, s: System, listing: seq<Text>)
    requires Running(g, s) && SizesFit(g, ViewOf(s)) && CopyMove(g, s, listing).Ok?
    ensures IsListing(g.options, s.pc) ==> |listing| <= g.page
  {
    if s.pc.AtStart? {
      ListingFits(listing, ListableNames(s.names, Outstanding(s)));
    } else if IsListing(g.options, s.pc) {
      assert RoomForKeys(Some(g.page), ViewOf(s), s.pc.collections[0]);
      ListingFits(listing, ListableKeys(s.source, Outstanding(s), s.pc.collections[0]));
    }
  }

  /** For a source that fits the pages: all runs whose listings are shown in full, mutations
      of the source included, end exact if and only if the target starts without leftovers. */
  lemma ConvergesIffNoLeftovers(g: Setup, s: System)
    requires Started(g, s) && |s.names| <= g.page && forall c | Chosen(g.options, c) :: |KeysOf(s.source, c)| <= g.page
    ensures Standing(s.stream, s.history)
    ensures NoLeftovers(g.options, s) <==>
            forall moves | NeverDestroyed(moves) && ListingsFit(g, s, moves) :: EndsExact(g, s, moves)
  {
    StartsRunning(g, s);
    if NoLeftovers(g.options, s) {
      forall moves | NeverDestroyed(moves) && ListingsFit(g, s, moves) ensures EndsExact(g, s, moves) {
        MigrationConverges(g, s, moves);
      }
    } else {
      StartSoundIff(g, s);
      var moves := InexactRun(g, s);
      StartRoom(g, s);
      QuietListingsFit(g, s, moves);
    }
  }

  // ------------------------------------------------------------------- destruction

  /** A value for `x` is in the target, or about to be written, and no record being applied
      will take it away. */
  predicate Stranded(o: Options, v: View, x: Pair)
    requires Chosen(o, x.0)
  {
    match v.pc
    case Applying(y, _) => x != y && Image(o, x) in v.target
    case Putting(y, value) => if x == y then value.Some? else Image(o, x) in v.target
    case InCollection(c, _, items, _, _) =>
      (x.0 == c && Held(items, x.1).Some? && Held(items, x.1).value.Some?) || Image(o, x) in v.target
    case _ => Image(o, x) in v.target
  }

  ghost predicate EndsEmpty(g: Setup, s: System, moves: seq<Move>)
    requires Standing(s.stream, s.history)
  {
    var r := AdvanceAll(g, s, moves);
    r.Ok? && Drained(r.value) ==> r.value.target == map[]
  }

  /** When the source store is destroyed in the middle of a migration and comes back with its
      seed, all runs from there end exact, the source being left alone, exactly when every
      chosen key is safe with respect to what came back. */
  lemma DestroyedExactIff(g: Setup, s: System, seed: Contents, names: set<Text>)
    requires Running(g, s) && NotOutrun(g, s) && Named(seed, names)
    ensures var d := s.(source := seed, names := names);
            && Advance(g, s, Destroy(seed, names)) == Ok(d) && Running(g, d)
            && ((forall moves | Untouched(moves) :: EndsExact(g, d, moves)) <==>
                  Sound(g.options, Some(g.page), ViewOf(s).(source := seed, names := names)))
  {
    var d := s.(source := seed, names := names);
    assert ViewOf(d) == ViewOf(s).(source := seed, names := names);
    QuietExactIff(g, d);
  }

  lemma EmptySourceSafeIff(o: Options, room: Option<nat>, v: View, x: Pair)
    requires Chosen(o, x.0)
    ensures Safe(o, room, v.(source := map[], names := {}), x) <==> (Stranded(o, v, x) ==> Mentioned(v, x))
  {
  }

  lemma EmptySourceExactIff(g: Setup, d: System, moves: seq<Move>)
    requires Standing(d.stream, d.history) && d.source == map[] && Untouched(moves)
    ensures EndsEmpty(g, d, moves) <==> EndsExact(g, d, moves)
  {
    QuietKeepsSource(g, d, moves);
    assert Renamed(g.options, map[]) == map[];
  }

  ghost predicate StrandedAreMentioned(o: Options, v: View) {
    forall x: Pair | Chosen(o, x.0) && Stranded(o, v, x) :: Mentioned(v, x)
  }

  lemma EmptySourceSoundIff(o: Options, room: Option<nat>, v: View)
    requires forall t | t in v.target :: IsImage(o, t)
    ensures Sound(o, room, v.(source := map[], names := {})) <==> StrandedAreMentioned(o, v)
  {
    var w := v.(source := map[], names := {});
    if Sound(o, room, w) {
      forall x: Pair | Chosen(o, x.0) && Stranded(o, v, x) ensures Mentioned(v, x) {
        EmptySourceSafeIff(o, room, v, x);
        assert Safe(o, room, w, x);
      }
    }
    if StrandedAreMentioned(o, v) {
      forall x: Pair | Chosen(o, x.0) ensures Safe(o, room, w, x) {
        EmptySourceSafeIff(o, room, v, x);
      }
    }
  }

  /** Without a seed: all runs end with an empty target, as the empty source demands, exactly
      when every chosen key with a stranded value has an outstanding record. */
  lemma DestroyedEndsEmptyIff(g: Setup, s: System)
    requires Inv(g, s) && NotOutrun(g, s)
    ensures var d := s.(source := map[], names := {});
            && Advance(g, s, Destroy(map[], {})) == Ok(d) && Standing(d.stream, d.history)
            && ((forall moves | Untouched(moves) :: EndsEmpty(g, d, moves)) <==> StrandedAreMentioned(g.options, ViewOf(s)))
  {
    var d := s.(source := map[], names := {});
    DestroyedExactIff(g, s, map[], {});
    EmptySourceSoundIff(g.options, Some(g.page), ViewOf(s));
    forall moves | Untouched(moves) ensures EndsEmpty(g, d, moves) <==> EndsExact(g, d, moves) {
      EmptySourceExactIff(g, d, moves);
    }
    if forall moves | Untouched(moves) :: EndsEmpty(g, d, moves) {
      forall moves | Untouched(moves) ensures EndsExact(g, d, moves) {
        assert EndsEmpty(g, d, moves);
      }
    }
    if forall moves | Untouched(moves) :: EndsExact(g, d, moves) {
      forall moves | Untouched(moves) ensures EndsEmpty(g, d, moves) {
        assert EndsExact(g, d, moves);
      }
    }
  }

  lemma {:induction false} QuietKeepsSource(g: Setup, s: System, moves: seq<Move>)
    requires Standing(s.stream, s.history) && Untouched(moves)
    ensures var r := AdvanceAll(g, s, moves); r.Ok? ==> r.value.source == s.source
    decreases |moves|
  {
    if moves != [] {
      var r := Advance(g, s, moves[0]);
      if r.Ok? && Standing(r.value.stream, r.value.history) {
        QuietKeepsSource(g, r.value, moves[1..]);
      }
    }
  }

  /** A finished migration whose source is then destroyed stays finished and keeps its
      copies. */
  lemma DestroyAfterEnd(g: Setup, s: System, before: seq<Move>, end: System)
    requires Running(g, s) && AdvanceAll(g, s, before) == Ok(end) && Drained(end) && end.target != map[]
    ensures Finishes(g, s, before + [Destroy(map[], {})]) && !EndsExact(g, s, before + [Destroy(map[], {})])
  {
    var last := [Destroy(map[], {})];
    AdvanceAllConcat(g, s, before, last);
    assert last[1..] == [];
    assert AdvanceAll(g, end, last) == Ok(end.(source := map[], names := {}));
    assert Renamed(g.options, map[]) == map[];
  }

  lemma EndsWithCopies(g: Setup, s: System, moves: seq<Move>, end: System)
    requires Started(g, s) && NoLeftovers(g.options, s) && AllShown(g, s)
    requires exists x :: x in s.source && Chosen(g.options, x.0)
    requires Standing(s.stream, s.history)
    requires Untouched(moves) && AdvanceAll(g, s, moves) == Ok(end) && Drained(end) && end.source == s.source
    ensures end.target != map[]
  {
    QuietMigrationExactIff(g, s);
    assert EndsExact(g, s, moves);
    var x :| x in s.source && Chosen(g.options, x.0);
    RenamedAt(g.options, s.source, x);
  }

  /** For every source with a chosen key that is shown there is a run, destruction included,
      that ends inexact: the copies stay behind. */
  lemma DestroyCanStrandCopies(g: Setup, s: System)
    requires Started(g, s) && NoLeftovers(g.options, s) && AllShown(g, s)
    requires exists x :: x in s.source && Chosen(g.options, x.0)
    ensures Standing(s.stream, s.history)
    ensures exists moves :: Finishes(g, s, moves) && !EndsExact(g, s, moves)
  {
    StartsRunning(g, s);
    var before, end := FinishingRun(g, s, None);
    EndsWithCopies(g, s, before, end);
    DestroyAfterEnd(g, s, before, end);
  }
}
