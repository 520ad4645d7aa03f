/** The `/verify` event stream: the classification of each address in stage
    order, its server-sent event, and the row loop of `generate`. */
module Stream {
  import opened Wrappers
  import opened Text
  import opened Syntax
  import opened Checks
  import Json

  /** The four statuses, in the order their stages run. */
  datatype Status = InvalidSyntax | InvalidDomain | SmtpFailed | Valid

  /** The text each status is reported as. */
  function Label(s: Status): string
  {
    match s
    case InvalidSyntax => "Invalid Syntax"
    case InvalidDomain => "Invalid Domain"
    case SmtpFailed => "SMTP Failed"
    case Valid => "Valid"
  }

  function StatusOfLabel(t: string): (r: Option<Status>)
    ensures r.Some? ==> Label(r.value) == t
  {
    if t == "Invalid Syntax" then Some(InvalidSyntax)
    else if t == "Invalid Domain" then Some(InvalidDomain)
    else if t == "SMTP Failed" then Some(SmtpFailed)
    else if t == "Valid" then Some(Valid)
    else None
  }

  /** Every status's label reads back as that status, so no two statuses
      share a label. */
  lemma LabelRoundTrip(s: Status)
    ensures StatusOfLabel(Label(s)) == Some(s)
  {
  }

  /** A status together with every oracle use that produced it, in order. */
  datatype Assessment = Assessment(status: Status, queries: seq<Query>)

  /** The if/elif chain of `generate` for one stripped address. */
  function Assess(email: string, net: Network): Assessment
  {
    if !IsValidSyntax(email) then Assessment(InvalidSyntax, [])
    else
      var mx := HasMx(net, DomainOf(email));
      if !mx.ok then Assessment(InvalidDomain, mx.queries)
      else
        var smtp := SmtpCheck(net, email);
        Assessment(if smtp.ok then Valid else SmtpFailed, mx.queries + smtp.queries)
  }

  /** The syntax stage uses no oracle, and an address is rejected with no
      oracle used exactly when it fails the syntax check. */
  lemma SyntaxStageFirst(email: string, net: Network)
    ensures Assess(email, net).status == InvalidSyntax <==> !IsValidSyntax(email)
    ensures Assess(email, net).queries == [] <==> !IsValidSyntax(email)
  {
  }

  /** For a well-formed address the first oracle use is the MX lookup of its
      domain, and the status is `Invalid Domain` exactly when that lookup
      raised. A raised lookup ends the chain: `smtp_check` is not consulted,
      and the lookup is the only oracle use; otherwise what follows it is
      exactly what `smtp_check` does. */
  lemma DomainStageSecond(email: string, net: Network)
    requires IsValidSyntax(email)
    ensures |Assess(email, net).queries| > 0
    ensures Assess(email, net).queries[0] == Lookup(DomainOf(email))
    ensures Assess(email, net).status == InvalidDomain <==> net.resolve(DomainOf(email)).Raised?
    ensures net.resolve(DomainOf(email)).Raised? ==> Assess(email, net).queries == [Lookup(DomainOf(email))]
    ensures !net.resolve(DomainOf(email)).Raised? ==>
      Assess(email, net).queries == [Lookup(DomainOf(email))] + SmtpCheck(net, email).queries
  {
  }

  /** An SMTP conversation happens only after both earlier stages passed,
      and it is about this address, from the fixed sender. */
  lemma SmtpStageLast(email: string, net: Network, k: nat)
    requires k < |Assess(email, net).queries| && Assess(email, net).queries[k].Session?
    ensures IsValidSyntax(email) && !net.resolve(DomainOf(email)).Raised?
    ensures Assess(email, net).queries[k].probe == Probe(FirstExchange(net.resolve(DomainOf(email))).value, Sender, email)
  {
    if IsValidSyntax(email) {
      DomainStageSecond(email, net);
      if !net.resolve(DomainOf(email)).Raised? {
        ValidSyntaxHasOneAt(email);
        assert Split(email, '@')[1] == DomainOf(email);
      }
    }
  }

  /** What a status means in terms of the two oracles: `Valid` exactly when
      the address is well-formed, the lookup of its domain gives a first
      exchange, and the conversation with that exchange ends with RCPT
      answered 250. */
  lemma ValidMeansAccepted(email: string, net: Network)
    ensures Assess(email, net).status == Valid <==>
      IsValidSyntax(email) &&
      FirstExchange(net.resolve(DomainOf(email))).Some? &&
      net.session(Probe(FirstExchange(net.resolve(DomainOf(email))).value, Sender, email)) == Replied(RcptAccepted)
  {
    if IsValidSyntax(email) {
      ValidSyntaxHasOneAt(email);
      assert Split(email, '@')[1] == DomainOf(email);
    }
  }

  /** The server-sent event `generate` yields for one address: a single
      `data:` field holding the JSON document, ended by a blank line
      (HTML Living Standard, section 9.2.6). */
  function Event(email: string, status: Status): string
  {
    "data: " + Json.Dumps(Document(email, status)) + "\n\n"
  }

  /** The dict `{'email': email, 'status': status}` that is serialised. */
  function Document(email: string, status: Status): seq<(string, string)>
  {
    [("email", email), ("status", Label(status))]
  }

  /** Reads one event of that shape back. */
  function ParseEvent(ev: string): Option<(string, Status)>
  {
    if |ev| < 8 || ev[..6] != "data: " || ev[|ev| - 2..] != "\n\n" then None
    else match Json.ParseDumps(ev[6..|ev| - 2])
      case None => None
      case Some(ms) =>
        if |ms| != 2 || ms[0].0 != "email" || ms[1].0 != "status" then None
        else match StatusOfLabel(ms[1].1)
          case None => None
          case Some(status) => Some((ms[0].1, status))
  }

  lemma ParseFrame(doc: string, ms: seq<(string, string)>)
    requires Json.ParseDumps(doc) == Some(ms)
    ensures ParseEvent("data: " + doc + "\n\n") ==
      if |ms| != 2 || ms[0].0 != "email" || ms[1].0 != "status" then None
      else match StatusOfLabel(ms[1].1)
        case None => None
        case Some(status) => Some((ms[0].1, status))
  {
    var ev := "data: " + doc + "\n\n";
    assert ev[..6] == "data: " && ev[6..|ev| - 2] == doc && ev[|ev| - 2..] == "\n\n";
  }

  /** Each event carries its address and status without loss. */
  lemma EventRoundTrip(email: string, status: Status)
    ensures ParseEvent(Event(email, status)) == Some((email, status))
  {
    var ms := Document(email, status);
    Json.DumpsRoundTrip(ms);
    ParseFrame(Json.Dumps(ms), ms);
    LabelRoundTrip(status);
  }

  /** Each event is one frame: no line break occurs before the blank line
      that ends it, so an event-stream reader dispatches it as exactly one
      message whose data is the JSON document. */
  lemma EventIsOneFrame(email: string, status: Status)
    ensures var ev := Event(email, status);
      |ev| >= 2 && '\n' !in ev[..|ev| - 2] && '\r' !in ev[..|ev| - 2]
  {
    var doc := Json.Dumps(Document(email, status));
    var ev := Event(email, status);
    Json.DumpsIsPrintable(Document(email, status));
    Json.AllPrintableAppend("data: ", doc);
    assert ev[..|ev| - 2] == "data: " + doc;
    Json.PrintableHasNoLineBreak("data: " + doc);
  }

  /** `csv.reader` yields `[]` for a blank line, and `row[0]` then raises
      IndexError, ending the stream: the position of the first such row. */
  function FirstEmptyRow(rows: seq<seq<string>>): (r: Option<nat>)
    ensures r.None? ==> forall k :: 0 <= k < |rows| ==> rows[k] != []
    ensures r.Some? ==> r.value < |rows| && rows[r.value] == [] &&
                        forall k :: 0 <= k < r.value ==> rows[k] != []
  {
    if rows == [] then None
    else if rows[0] == [] then Some(0)
    else match FirstEmptyRow(rows[1..])
      case None => None
      case Some(k) => Some(k + 1)
  }

  /** The rows `generate` gets through: all of them, or those before the
      first empty one. */
  function Processed(rows: seq<seq<string>>): (done: seq<seq<string>>)
    ensures forall k :: 0 <= k < |done| ==> done[k] != []
  {
    match FirstEmptyRow(rows)
    case None => rows
    case Some(k) => rows[..k]
  }

  /** The stripped first columns that are not empty, in row order. */
  function Emails(rows: seq<seq<string>>): (es: seq<string>)
    requires forall k :: 0 <= k < |rows| ==> rows[k] != []
  {
    if rows == [] then []
    else
      var e := Strip(rows[|rows| - 1][0]);
      Emails(rows[..|rows| - 1]) + (if e == [] then [] else [e])
  }

  /** The positions of the rows that yield an address, in row order. */
  ghost function Kept(rows: seq<seq<string>>): seq<nat>
    requires forall k :: 0 <= k < |rows| ==> rows[k] != []
  {
    if rows == [] then []
    else
      var e := Strip(rows[|rows| - 1][0]);
      Kept(rows[..|rows| - 1]) + (if e == [] then [] else [|rows| - 1])
  }

  lemma {:induction false} KeptIndexesRows(rows: seq<seq<string>>)
    requires forall k :: 0 <= k < |rows| ==> rows[k] != []
    ensures |Kept(rows)| == |Emails(rows)|
    ensures forall k :: 0 <= k < |Kept(rows)| ==>
      Kept(rows)[k] < |rows| && Emails(rows)[k] == Strip(rows[Kept(rows)[k]][0])
  {
    if rows != [] {
      var init := rows[..|rows| - 1];
      KeptIndexesRows(init);
      var ks, es := Kept(init), Emails(init);
      var e := Strip(rows[|rows| - 1][0]);
      var kt: seq<nat> := if e == [] then [] else [|rows| - 1];
      var et: seq<string> := if e == [] then [] else [e];
      assert Kept(rows) == ks + kt && Emails(rows) == es + et;
      forall k | 0 <= k < |ks + kt|
        ensures (ks + kt)[k] < |rows| && (es + et)[k] == Strip(rows[(ks + kt)[k]][0])
      {
        if k < |ks| {
          assert (ks + kt)[k] == ks[k] && (es + et)[k] == es[k];
          assert rows[ks[k]] == init[ks[k]];
        }
      }
    }
  }

  lemma {:induction false} KeptIncreasing(rows: seq<seq<string>>)
    requires forall k :: 0 <= k < |rows| ==> rows[k] != []
    ensures forall k :: 0 <= k < |Kept(rows)| ==> Kept(rows)[k] < |rows|
    ensures forall k, l :: 0 <= k < l < |Kept(rows)| ==> Kept(rows)[k] < Kept(rows)[l]
  {
    if rows != [] {
      var init := rows[..|rows| - 1];
      KeptIncreasing(init);
      var ks := Kept(init);
      var e := Strip(rows[|rows| - 1][0]);
      var tail: seq<nat> := if e == [] then [] else [|rows| - 1];
      assert Kept(rows) == ks + tail;
      forall k, l | 0 <= k < l < |ks + tail| ensures (ks + tail)[k] < (ks + tail)[l] {
        if l >= |ks| { assert (ks + tail)[k] == ks[k]; }
      }
    }
  }

  lemma {:induction false} KeptMembership(rows: seq<seq<string>>)
    requires forall k :: 0 <= k < |rows| ==> rows[k] != []
    ensures forall r :: 0 <= r < |rows| ==> (r in Kept(rows) <==> Strip(rows[r][0]) != [])
  {
    if rows != [] {
      var init := rows[..|rows| - 1];
      KeptMembership(init);
      KeptIncreasing(init);
      var ks := Kept(init);
      var e := Strip(rows[|rows| - 1][0]);
      var kt: seq<nat> := if e == [] then [] else [|rows| - 1];
      assert Kept(rows) == ks + kt;
      forall r | 0 <= r < |rows| ensures r in ks + kt <==> Strip(rows[r][0]) != [] {
        if r < |init| {
          assert rows[r] == init[r];
          assert r !in kt;
        } else {
          assert r !in ks;
        }
      }
    }
  }

  /** One address per row whose stripped first column is not empty, none
      for the others, in row order, and each address is that column
      stripped, not the raw field. */
  lemma EmailsFollowRows(rows: seq<seq<string>>)
    requires forall k :: 0 <= k < |rows| ==> rows[k] != []
    ensures |Kept(rows)| == |Emails(rows)|
    ensures forall k :: 0 <= k < |Kept(rows)| ==>
      Kept(rows)[k] < |rows| && Emails(rows)[k] == Strip(rows[Kept(rows)[k]][0])
    ensures forall k, l :: 0 <= k < l < |Kept(rows)| ==> Kept(rows)[k] < Kept(rows)[l]
    ensures forall r :: 0 <= r < |rows| ==> (r in Kept(rows) <==> Strip(rows[r][0]) != [])
  {
    KeptIndexesRows(rows);
    KeptIncreasing(rows);
    KeptMembership(rows);
  }

  /** `f` applied to each element, in order. */
  function MapSeq<A, B>(xs: seq<A>, f: A -> B): seq<B>
  {
    if xs == [] then [] else MapSeq(xs[..|xs| - 1], f) + [f(xs[|xs| - 1])]
  }

  lemma {:induction false} MapSeqAt<A, B>(xs: seq<A>, f: A -> B, k: nat)
    requires k < |xs|
    ensures |MapSeq(xs, f)| == |xs| && MapSeq(xs, f)[k] == f(xs[k])
  {
    var init := xs[..|xs| - 1];
    if k < |init| {
      MapSeqAt(init, f, k);
    } else if init != [] {
      MapSeqAt(init, f, 0);
    }
  }

  /** The event `generate` yields for an address, given the network. */
  function Emit(net: Network): string -> string
  {
    e => Event(e, Assess(e, net).status)
  }

  /** The events for a list of addresses, one each, in order. */
  function Events(emails: seq<string>, net: Network): seq<string>
  {
    MapSeq(emails, Emit(net))
  }

  /** One event per address, the `k`-th for the `k`-th address. */
  lemma EventsAt(emails: seq<string>, net: Network, k: nat)
    requires k < |emails|
    ensures |Events(emails, net)| == |emails|
    ensures Events(emails, net)[k] == Event(emails[k], Assess(emails[k], net).status)
  {
    MapSeqAt(emails, Emit(net), k);
  }

  /** `f` applied to each element, the results concatenated in order. */
  function FlatMap<A, B>(xs: seq<A>, f: A -> seq<B>): seq<B>
  {
    if xs == [] then [] else FlatMap(xs[..|xs| - 1], f) + f(xs[|xs| - 1])
  }

  /** The oracle uses `generate` makes for an address, given the network. */
  function Consult(net: Network): string -> seq<Query>
  {
    e => Assess(e, net).queries
  }

  /** All oracle uses for a list of addresses, address by address. */
  function QueriesOf(emails: seq<string>, net: Network): seq<Query>
  {
    FlatMap(emails, Consult(net))
  }

  /** The if/elif chain of `generate` run on one stripped address: the
      status it sets and the oracle uses it makes are those of `Assess`. */
  method Classify(email: string, net: Network) returns (status: Status, used: seq<Query>)
    ensures Assess(email, net) == Assessment(status, used)
  {
    if !IsValidSyntax(email) {
      status, used := InvalidSyntax, [];
    } else {
      var mx := HasMx(net, DomainOf(email));
      if !mx.ok {
        status, used := InvalidDomain, mx.queries;
      } else {
        var smtp := SmtpCheck(net, email);
        used := mx.queries + smtp.queries;
        if !smtp.ok {
          status := SmtpFailed;
        } else {
          status := Valid;
        }
      }
    }
  }

  lemma EmailsSnoc(rows: seq<seq<string>>, i: nat)
    requires i < |rows| && forall k :: 0 <= k <= i ==> rows[k] != []
    ensures var e := Strip(rows[i][0]);
      Emails(rows[..i + 1]) == Emails(rows[..i]) + (if e == [] then [] else [e])
  {
    assert rows[..i + 1][..i] == rows[..i];
  }

  lemma {:induction false} MapSeqSnoc<A, B>(xs: seq<A>, x: A, f: A -> B)
    ensures MapSeq(xs + [x], f) == MapSeq(xs, f) + [f(x)]
  {
    assert (xs + [x])[..|xs|] == xs;
  }

  lemma {:induction false} FlatMapSnoc<A, B>(xs: seq<A>, x: A, f: A -> seq<B>)
    ensures FlatMap(xs + [x], f) == FlatMap(xs, f) + f(x)
  {
    assert (xs + [x])[..|xs|] == xs;
  }

  /** What one more row adds to the stream: nothing for a blank first
      column, otherwise the image of its address under `f` (its event) and
      under `g` (its oracle uses). */
  lemma RowStep(rows: seq<seq<string>>, i: nat, f: string -> string, g: string -> seq<Query>)
    requires i < |rows| && forall k :: 0 <= k <= i ==> rows[k] != []
    ensures var e := Strip(rows[i][0]);
      MapSeq(Emails(rows[..i + 1]), f) ==
        MapSeq(Emails(rows[..i]), f) + (if e == [] then [] else [f(e)])
    ensures var e := Strip(rows[i][0]);
      FlatMap(Emails(rows[..i + 1]), g) ==
        FlatMap(Emails(rows[..i]), g) + (if e == [] then [] else g(e))
  {
    EmailsSnoc(rows, i);
    var e := Strip(rows[i][0]);
    var before, after := Emails(rows[..i]), Emails(rows[..i + 1]);
    if e == [] {
      assert after == before;
    } else {
      assert after == before + [e];
      MapSeqSnoc(before, e, f);
      FlatMapSnoc(before, e, g);
    }
  }

  /** `generate`: for each row, strip the first column, skip it if empty,
      classify it by the stage chain and yield its event. `events` is what
      the client receives, `queries` every oracle use in order, and
      `raisedAt` the row whose missing first column raised, if any. */
  method Generate(rows: seq<seq<string>>, net: Network)
    returns (events: seq<string>, queries: seq<Query>, raisedAt: Option<nat>)
    ensures raisedAt == FirstEmptyRow(rows)
    ensures events == Events(Emails(Processed(rows)), net)
    ensures queries == QueriesOf(Emails(Processed(rows)), net)
  {
    events, queries, raisedAt := [], [], None;
    for i := 0 to |rows|
      invariant forall k :: 0 <= k < i ==> rows[k] != []
      invariant events == Events(Emails(rows[..i]), net)
      invariant queries == QueriesOf(Emails(rows[..i]), net)
    {
      if rows[i] == [] {
        raisedAt := Some(i);
        FirstEmptyRowAt(rows, i);
        return;
      }
      RowStep(rows, i, Emit(net), Consult(net));
      var email := Strip(rows[i][0]);
      if email == [] {
        continue;
      }
      var status, used := Classify(email, net);
      events := events + [Event(email, status)];
      queries := queries + used;
    }
    assert rows[..|rows|] == rows;
  }

  lemma FirstEmptyRowAt(rows: seq<seq<string>>, i: nat)
    requires i < |rows| && rows[i] == [] && forall k :: 0 <= k < i ==> rows[k] != []
    ensures FirstEmptyRow(rows) == Some(i)
  {
  }
}
