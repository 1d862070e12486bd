/**
 * Sending trading cards from a table of gifts (cardsend.py).  A card link is
 * taken apart into the `key=value` pieces of its path; each table row names
 * the link, the sender, the receiver and optionally the sender's password or
 * autologin.  The gift request is an oracle that accepts or refuses a gift.
 */
module CardSend {
  import opened Outcomes
  import opened Strings
  import opened Core
  import opened Dicts
  import opened Credentials

  /** The key and value of one path piece: split at its first '=', or nothing
      when the piece has no '='. */
  function PiecePair(piece: string): (r: Option<(string, string)>)
    ensures r.Some? <==> '=' in piece
    ensures r.Some? ==> r.value.0 + "=" + r.value.1 == piece && '=' !in r.value.0
  {
    ContainsChar(piece, '=');
    if Contains(piece, "=") then
      var kv := SplitOnce(piece, "=");
      ContainsChar(kv[0], '=');
      Some((kv[0], kv[1]))
    else None
  }

  lemma PieceSplit(piece: string, kv: seq<string>)
    requires Contains(piece, "=") ==> kv == SplitOnce(piece, "=")
    ensures Contains(piece, "=") ==> |kv| == 2 && PiecePair(piece) == Some((kv[0], kv[1]))
    ensures !Contains(piece, "=") ==> PiecePair(piece) == None
  {
  }

  /** The `data` dict of `send_card`: each pair assigned in turn. */
  function LinkData(link: string): Dict<string> {
    PiecesData(Split(link, "/"))
  }

  /** The `data` dict after the given pieces of the link. */
  function PiecesData(pieces: seq<string>): Dict<string> {
    FromPairs(Plain, PairsOf(pieces, PiecePair))
  }

  /** The loop of `send_card` that fills `data` from the pieces of the link. */
  method ParseLink(link: string) returns (data: Dict<string>)
    ensures data == LinkData(link)
  {
    var pieces := Split(link, "/");
    data := [];
    var i := 0;
    while i < |pieces|
      invariant 0 <= i <= |pieces|
      invariant data == PiecesData(pieces[..i])
    {
      var piece := pieces[i];
      LinkStep(pieces, i);
      if Contains(piece, "=") {
        var kv := SplitOnce(piece, "=");
        data := Put(Plain, data, kv[0], kv[1]);
      }
      i := i + 1;
    }
    assert pieces[..|pieces|] == pieces;
  }

  /** One piece of the link: a piece with "=" assigns its two halves, any other
      piece leaves the data as it was. */
  lemma LinkStep(pieces: seq<string>, i: nat)
    requires i < |pieces|
    ensures var before := PiecesData(pieces[..i]);
      PiecesData(pieces[..i + 1]) ==
        if Contains(pieces[i], "=") then
          var kv := SplitOnce(pieces[i], "=");
          Put(Plain, before, kv[0], kv[1])
        else before
  {
    PairsOfNext(Plain, pieces, PiecePair, i);
    if Contains(pieces[i], "=") {
      PieceSplit(pieces[i], SplitOnce(pieces[i], "="));
    } else {
      PieceSplit(pieces[i], []);
    }
  }

  /** The card id and season of a link, as `int(data["card"])` and then
      `int(data["season"])`: KeyError for a missing key, ValueError for a
      value that is not an integer, in that order. */
  function CardOf(link: string): (r: Result<(int, int)>)
    ensures !In(Plain, LinkData(link), "card") ==> r == Err(KeyError("card"))
    ensures In(Plain, LinkData(link), "card") && ParseInt(Get(Plain, LinkData(link), "card").value).Err? ==>
      r.Err? && r.error.ValueError?
    ensures r.Ok? <==>
      (Get(Plain, LinkData(link), "card").Ok? && ParseInt(Get(Plain, LinkData(link), "card").value).Ok? &&
       Get(Plain, LinkData(link), "season").Ok? && ParseInt(Get(Plain, LinkData(link), "season").value).Ok?)
    ensures r.Ok? ==>
      ParseInt(Get(Plain, LinkData(link), "card").value) == Ok(r.value.0) &&
      ParseInt(Get(Plain, LinkData(link), "season").value) == Ok(r.value.1)
  {
    var data := LinkData(link);
    var card :- Get(Plain, data, "card");
    var id :- ParseInt(card);
    var season :- Get(Plain, data, "season");
    var s :- ParseInt(season);
    Ok((id, s))
  }

  /** A piece splits at its first '=', so the value may itself contain '='. */
  lemma PieceValueMayContainEquals(k: string, v: string)
    requires '=' !in k
    ensures PiecePair(k + "=" + v) == Some((k, v))
  {
    var piece := k + "=" + v;
    assert piece == k + ['='] + v;
    FirstCharOccurrence(k, '=', v);
    assert piece[..|k|] == k && piece[|k| + 1..] == v;
  }

  /** The pairs of a link given as its pieces joined by '/'. */
  lemma LinkPieces(pieces: seq<string>)
    requires |pieces| >= 1 && forall p <- pieces :: '/' !in p
    ensures LinkData(Join(pieces, "/")) == FromPairs(Plain, PairsOf(pieces, PiecePair))
  {
    assert "/" == ['/'];
    SplitJoin(pieces, '/');
  }

  /** The digits of a number have no '/' and no '='. */
  lemma DigitsPlain(n: nat)
    ensures '/' !in NatToString(n) && '=' !in NatToString(n)
  {
    var d := NatToString(n);
    forall c | c in d ensures c != '/' && c != '=' {
      var j :| 0 <= j < |d| && d[j] == c;
      assert IsDigit(d[j]);
    }
  }

  lemma PieceWords()
    ensures '/' !in "card=" && '/' !in "season=" && '=' !in "card" && '=' !in "season"
    ensures "card" != "season"
    ensures "card" + "=" == "card=" && "season" + "=" == "season="
  {
    assert "card" == ['c', 'a', 'r', 'd'];
    assert "card=" == ['c', 'a', 'r', 'd', '='];
    assert "season" == ['s', 'e', 'a', 's', 'o', 'n'];
    assert "season=" == ['s', 'e', 'a', 's', 'o', 'n', '='];
  }

  /** Pieces ending in `card=<x>` and `season=<y>` give those two values. */
  lemma CardSeasonPieces(pieces: seq<string>, x: string, y: string)
    requires |pieces| >= 2
    requires pieces[|pieces| - 2] == "card" + "=" + x && pieces[|pieces| - 1] == "season" + "=" + y
    ensures var data := FromPairs(Plain, PairsOf(pieces, PiecePair));
      Get(Plain, data, "card") == Ok(x) && Get(Plain, data, "season") == Ok(y)
  {
    CardSeasonPairs(pieces, x, y);
    LastTwoPairsWin(Plain, pieces, PiecePair, ("card", x), ("season", y));
  }

  /** The last two pieces assign "card" and "season", two different keys. */
  lemma CardSeasonPairs(pieces: seq<string>, x: string, y: string)
    requires |pieces| >= 2
    requires pieces[|pieces| - 2] == "card" + "=" + x && pieces[|pieces| - 1] == "season" + "=" + y
    ensures PiecePair(pieces[|pieces| - 2]) == Some(("card", x))
    ensures PiecePair(pieces[|pieces| - 1]) == Some(("season", y))
    ensures Norm(Plain, "card") != Norm(Plain, "season")
  {
    PieceWords();
    PieceValueMayContainEquals("card", x);
    PieceValueMayContainEquals("season", y);
  }

  /** The `data` of a link whose path ends in `card=<x>/season=<y>`. */
  lemma CardLinkData(pre: seq<string>, x: string, y: string)
    requires forall p <- pre :: '/' !in p
    requires '/' !in x && '/' !in y
    ensures var data := LinkData(Join(pre + ["card=" + x, "season=" + y], "/"));
      Get(Plain, data, "card") == Ok(x) && Get(Plain, data, "season") == Ok(y)
  {
    var pieces := pre + ["card=" + x, "season=" + y];
    CardPiecesPlain(pre, x, y);
    LinkPieces(pieces);
    PieceWords();
    CardSeasonPieces(pieces, x, y);
  }

  lemma CardPiecesPlain(pre: seq<string>, x: string, y: string)
    requires forall p <- pre :: '/' !in p
    requires '/' !in x && '/' !in y
    ensures forall p <- pre + ["card=" + x, "season=" + y] :: '/' !in p
  {
    PieceWords();
    forall p <- pre + ["card=" + x, "season=" + y] ensures '/' !in p {
      if p !in pre {
        assert p == "card=" + x || p == "season=" + y;
      }
    }
  }

  /** A link whose path ends in `card=<c>/season=<s>` names card `c` of
      season `s`, whatever the pieces before it hold. */
  lemma CardLink(pre: seq<string>, c: nat, s: nat)
    requires forall p <- pre :: '/' !in p
    ensures CardOf(Join(pre + ["card=" + NatToString(c), "season=" + NatToString(s)], "/")) == Ok((c, s))
  {
    DigitsPlain(c);
    DigitsPlain(s);
    CardLinkData(pre, NatToString(c), NatToString(s));
    assert IntToString(c) == NatToString(c) && IntToString(s) == NatToString(s);
    ParseIntToString(c);
    ParseIntToString(s);
  }

  /** A link with no `card` piece raises KeyError("card"). */
  lemma CardMissing(pieces: seq<string>)
    requires |pieces| >= 1 && forall p <- pieces :: '/' !in p
    requires forall j :: 0 <= j < |pieces| ==> PiecePair(pieces[j]).None? || PiecePair(pieces[j]).value.0 != "card"
    ensures CardOf(Join(pieces, "/")) == Err(KeyError("card"))
  {
    LinkPieces(pieces);
    PairsOfIn(Plain, pieces, PiecePair, "card");
  }

  // ---- main ----

  /** The answer to the autologin question, lower-cased, is "yes" or "y". */
  function AutologinAnswer(answer: string): (r: bool)
    ensures r <==> Lower(answer) in ["yes", "y"]
  {
    var a := Lower(answer);
    a == "yes" || a == "y"
  }

  /** A gift request: card, season, sending nation, its credential, receiver. */
  datatype Gift = Gift(card: int, season: int, sender: string, credential: Option<Auth>, receiver: string)

  /** The gift request against the API: it goes through or raises. */
  type GiftOracle = Gift -> Result<()>

  /** `send_card` from `sender` with its current credential. */
  function SendCard(link: string, sender: string, credential: Option<Auth>, receiver: string,
                    deliver: GiftOracle): (r: Result<Gift>)
    ensures CardOf(link).Err? ==> r == Err(CardOf(link).error)
    ensures r.Ok? <==> (CardOf(link).Ok? &&
                        deliver(Gift(CardOf(link).value.0, CardOf(link).value.1, sender, credential, receiver)).Ok?)
    ensures r.Ok? ==> r.value == Gift(CardOf(link).value.0, CardOf(link).value.1, sender, credential, receiver)
  {
    var card :- CardOf(link);
    var gift := Gift(card.0, card.1, sender, credential, receiver);
    var _ :- deliver(gift);
    Ok(gift)
  }

  /** What `main` has done so far: the senders it created a `Nation` for, in
      order; the credential each holds; and each row's outcome (the gift sent
      or the error reported). */
  datatype Run = Run(senders: seq<string>, credentials: map<string, Auth>, log: seq<Result<Gift>>)

  function CredentialOf(credentials: map<string, Auth>, nation: string): Option<Auth> {
    if nation in credentials then Some(credentials[nation]) else None
  }

  /** One row of the `try` block: a short row raises IndexError at `row[1]`
      or at `row[2]`, but a sender found before the failure stays created and
      its credential stays set. */
  function RowStep(run: Run, row: seq<string>, autologin: bool, deliver: GiftOracle): Run {
    if |row| < 2 then Run(run.senders, run.credentials, run.log + [Err(IndexError)])
    else
      var nation := CleanFormat(row[1]);
      var senders := if nation in run.senders then run.senders else run.senders + [nation];
      var credentials := if |row| >= 4 then run.credentials[nation := AuthOf(row[3], autologin)] else run.credentials;
      var outcome := if |row| < 3 then Err(IndexError)
                     else SendCard(row[0], nation, CredentialOf(credentials, nation), row[2], deliver);
      Run(senders, credentials, run.log + [outcome])
  }

  /** The rows processed in order, from nothing. */
  function RunRows(rows: seq<seq<string>>, autologin: bool, deliver: GiftOracle): Run
    decreases |rows|
  {
    if rows == [] then Run([], map[], [])
    else RowStep(RunRows(rows[..|rows| - 1], autologin, deliver), rows[|rows| - 1], autologin, deliver)
  }

  /** The loop of `main` over the rows of the table. */
  method SendCards(rows: seq<seq<string>>, autologin: bool, deliver: GiftOracle) returns (run: Run)
    ensures run == RunRows(rows, autologin, deliver)
  {
    var senders: seq<string> := [];
    var credentials: map<string, Auth> := map[];
    var log: seq<Result<Gift>> := [];
    var i := 0;
    while i < |rows|
      invariant 0 <= i <= |rows|
      invariant Run(senders, credentials, log) == RunRows(rows[..i], autologin, deliver)
    {
      var row := rows[i];
      assert rows[..i + 1][..i] == rows[..i];
      if |row| < 2 {
        log := log + [Err(IndexError)];
      } else {
        var nation := CleanFormat(row[1]);
        if nation !in senders {
          senders := senders + [nation];
        }
        if |row| >= 4 {
          credentials := credentials[nation := AuthOf(row[3], autologin)];
        }
        if |row| < 3 {
          log := log + [Err(IndexError)];
        } else {
          var outcome := SendCard(row[0], nation, CredentialOf(credentials, nation), row[2], deliver);
          log := log + [outcome];
        }
      }
      i := i + 1;
    }
    assert rows[..|rows|] == rows;
    run := Run(senders, credentials, log);
  }

  /** Every row is reported, one entry per row: a failing row does not stop the run. */
  lemma {:induction false} RunLog(rows: seq<seq<string>>, autologin: bool, deliver: GiftOracle, k: nat)
    requires k <= |rows|
    ensures |RunRows(rows, autologin, deliver).log| == |rows|
    ensures RunRows(rows, autologin, deliver).log[..k] == RunRows(rows[..k], autologin, deliver).log
    decreases |rows|
  {
    if rows != [] {
      var n := |rows| - 1;
      RunLog(rows[..n], autologin, deliver, if k <= n then k else n);
      RunRowsLog(rows, autologin, deliver);
      if k <= n {
        assert rows[..n][..k] == rows[..k];
        PrefixOfPrefix(RunRows(rows, autologin, deliver).log, n, k);
      } else {
        assert rows[..k] == rows;
      }
    }
  }

  /** Each row adds one entry to the log and keeps the entries before it. */
  lemma RunRowsLog(rows: seq<seq<string>>, autologin: bool, deliver: GiftOracle)
    requires rows != []
    ensures var before := RunRows(rows[..|rows| - 1], autologin, deliver).log;
      |RunRows(rows, autologin, deliver).log| == |before| + 1 &&
      RunRows(rows, autologin, deliver).log[..|before|] == before
  {
  }

  lemma PrefixOfPrefix<T>(xs: seq<T>, n: nat, k: nat)
    requires k <= n <= |xs|
    ensures xs[..n][..k] == xs[..k]
  {
  }

  /** The outcome of row `i` is that row's own gift, from its cleaned sender
      with the credential the sender holds once the row's own column is applied. */
  lemma RowOutcome(rows: seq<seq<string>>, autologin: bool, deliver: GiftOracle, i: nat)
    requires i < |rows|
    ensures |RunRows(rows, autologin, deliver).log| == |rows|
    ensures RunRows(rows, autologin, deliver).log[i] ==
      if |rows[i]| < 3 then Err(IndexError)
      else SendCard(rows[i][0], CleanFormat(rows[i][1]),
                    CredentialOf(RunRows(rows[..i + 1], autologin, deliver).credentials, CleanFormat(rows[i][1])),
                    rows[i][2], deliver)
  {
    RunLog(rows, autologin, deliver, i + 1);
    var upto := rows[..i + 1];
    assert upto[|upto| - 1] == rows[i];
    LastRowOutcome(upto, autologin, deliver);
    var log := RunRows(rows, autologin, deliver).log;
    assert log[i] == log[..i + 1][i];
  }

  /** The last row's entry in the log, as RowOutcome states it for row `i`. */
  lemma LastRowOutcome(rows: seq<seq<string>>, autologin: bool, deliver: GiftOracle)
    requires rows != []
    ensures |RunRows(rows, autologin, deliver).log| == |rows|
    ensures var row := rows[|rows| - 1];
      RunRows(rows, autologin, deliver).log[|rows| - 1] ==
      if |row| < 3 then Err(IndexError)
      else SendCard(row[0], CleanFormat(row[1]),
                    CredentialOf(RunRows(rows, autologin, deliver).credentials, CleanFormat(row[1])),
                    row[2], deliver)
  {
    RunLog(rows, autologin, deliver, |rows|);
    RunLog(rows[..|rows| - 1], autologin, deliver, |rows| - 1);
    RunRowsLog(rows, autologin, deliver);
  }

  /** One `Nation` per cleaned sender: the senders are distinct, and they
      are exactly the cleaned second columns of the rows that have one. */
  lemma {:induction false} RunSenders(rows: seq<seq<string>>, autologin: bool, deliver: GiftOracle)
    ensures Distinct(RunRows(rows, autologin, deliver).senders)
    ensures forall n :: n in RunRows(rows, autologin, deliver).senders <==> SenderRow(rows, n)
    decreases |rows|
  {
    if rows != [] {
      var k := |rows| - 1;
      RunSenders(rows[..k], autologin, deliver);
      forall n ensures n in RunRows(rows, autologin, deliver).senders <==> SenderRow(rows, n) {
        SenderRowSnoc(rows, n);
      }
    }
  }

  /** One of the rows has a second column whose cleaned form is `n`. */
  predicate SenderRow(rows: seq<seq<string>>, n: string) {
    exists i :: 0 <= i < |rows| && |rows[i]| >= 2 && CleanFormat(rows[i][1]) == n
  }

  lemma SenderRowSnoc(rows: seq<seq<string>>, n: string)
    requires rows != []
    ensures SenderRow(rows, n) <==>
      SenderRow(rows[..|rows| - 1], n) || (|rows[|rows| - 1]| >= 2 && CleanFormat(rows[|rows| - 1][1]) == n)
  {
    var k := |rows| - 1;
    var init := rows[..k];
    if SenderRow(init, n) {
      var i :| 0 <= i < k && |init[i]| >= 2 && CleanFormat(init[i][1]) == n;
      assert rows[i] == init[i];
    }
    if SenderRow(rows, n) {
      var i :| 0 <= i < |rows| && |rows[i]| >= 2 && CleanFormat(rows[i][1]) == n;
      if i < k {
        assert init[i] == rows[i];
      }
    }
  }

  /** A sender holds a credential exactly when one of its rows has four fields. */
  lemma {:induction false} RunCredentialsHeld(rows: seq<seq<string>>, autologin: bool, deliver: GiftOracle, n: string)
    ensures n in RunRows(rows, autologin, deliver).credentials <==> CredentialRow(rows, n)
    decreases |rows|
  {
    if rows != [] {
      var k := |rows| - 1;
      RunCredentialsHeld(rows[..k], autologin, deliver, n);
      CredentialRowSnoc(rows, n);
    }
  }

  /** One of the rows has four fields and names `n` as its sender. */
  predicate CredentialRow(rows: seq<seq<string>>, n: string) {
    exists i :: 0 <= i < |rows| && |rows[i]| >= 4 && CleanFormat(rows[i][1]) == n
  }

  lemma CredentialRowSnoc(rows: seq<seq<string>>, n: string)
    requires rows != []
    ensures CredentialRow(rows, n) <==>
      CredentialRow(rows[..|rows| - 1], n) || (|rows[|rows| - 1]| >= 4 && CleanFormat(rows[|rows| - 1][1]) == n)
  {
    var k := |rows| - 1;
    var init := rows[..k];
    if CredentialRow(init, n) {
      var i :| 0 <= i < k && |init[i]| >= 4 && CleanFormat(init[i][1]) == n;
      assert rows[i] == init[i];
    }
    if CredentialRow(rows, n) {
      var i :| 0 <= i < |rows| && |rows[i]| >= 4 && CleanFormat(rows[i][1]) == n;
      if i < k {
        assert init[i] == rows[i];
      }
    }
  }

  /** The credential a sender holds is that of its last row with four
      fields, as a password or as an autologin by the answer given. */
  lemma {:induction false} RunCredentialsLast(rows: seq<seq<string>>, autologin: bool, deliver: GiftOracle, i: nat)
    requires i < |rows| && |rows[i]| >= 4
    requires forall j :: i < j < |rows| && |rows[j]| >= 4 ==> CleanFormat(rows[j][1]) != CleanFormat(rows[i][1])
    ensures CredentialOf(RunRows(rows, autologin, deliver).credentials, CleanFormat(rows[i][1])) ==
      Some(AuthOf(rows[i][3], autologin))
    decreases |rows|
  {
    var k := |rows| - 1;
    var init := rows[..k];
    if i < k {
      assert init[i] == rows[i];
      assert forall j :: i < j < k ==> init[j] == rows[j];
      RunCredentialsLast(init, autologin, deliver, i);
    }
    RunRowsCredential(rows, autologin, deliver, CleanFormat(rows[i][1]));
  }

  /** A last row with four fields sets its sender's credential; any other
      last row leaves that credential as the rows before it left it. */
  lemma RunRowsCredential(rows: seq<seq<string>>, autologin: bool, deliver: GiftOracle, n: string)
    requires rows != []
    ensures var last := rows[|rows| - 1];
      CredentialOf(RunRows(rows, autologin, deliver).credentials, n) ==
      if |last| >= 4 && CleanFormat(last[1]) == n then Some(AuthOf(last[3], autologin))
      else CredentialOf(RunRows(rows[..|rows| - 1], autologin, deliver).credentials, n)
  {
  }
}
