/** The two network-backed checks, `has_mx` and `smtp_check`. DNS and SMTP
    are oracles: the model receives them as functions and records, as a
    list of queries, every use it makes of them. */
module Checks {
  import opened Wrappers
  import opened Text

  /** What `dns.resolver.resolve(domain, 'MX')` gives: the answer's mail
      exchanges in the order the resolver returned them (not sorted by
      preference), or an exception (no such domain, no answer, timeout). */
  datatype DnsAnswer = Answer(exchanges: seq<string>) | Raised

  /** One SMTP conversation: connect to `host`, HELO, `MAIL FROM:<sender>`,
      `RCPT TO:<recipient>`, QUIT. */
  datatype Probe = Probe(host: string, sender: string, recipient: string)

  /** How a conversation ends: every step returned and RCPT was answered
      with `rcptCode`, or some step (connect, HELO, MAIL, RCPT, QUIT) raised. */
  datatype SessionOutcome = Replied(rcptCode: int) | Failed

  datatype Network = Network(resolve: string -> DnsAnswer, session: Probe -> SessionOutcome)

  /** A use of an oracle: an MX lookup, or an SMTP conversation. */
  datatype Query = Lookup(domain: string) | Session(probe: Probe)

  /** A decision together with the oracle uses it took, in order. */
  datatype Checked = Checked(ok: bool, queries: seq<Query>)

  /** The fixed envelope sender of every probe. */
  const Sender: string := "test@example.com"

  /** The RCPT reply code that counts as "mailbox exists" (RFC 5321,
      section 4.2.3: 250 Requested mail action okay, completed). */
  const RcptAccepted: int := 250

  /** `has_mx(domain)`: one lookup, true iff it raised nothing, even when the
      answer lists no exchange. */
  function HasMx(net: Network, domain: string): (r: Checked)
    ensures r.queries == [Lookup(domain)]
    ensures r.ok <==> !net.resolve(domain).Raised?
  {
    match net.resolve(domain)
    case Raised => Checked(false, [Lookup(domain)])
    case Answer(_) => Checked(true, [Lookup(domain)])
  }

  /** `smtp_check(email)`: look the domain `email.split('@')[1]` up again,
      talk to the FIRST exchange of the answer only, and report whether RCPT
      was answered with 250. An exception at any step yields false: the
      split having no second piece (no oracle used), the lookup raising or
      `[0]` being out of range (one lookup, no conversation), or the
      conversation raising. */
  function SmtpCheck(net: Network, email: string): (r: Checked)
    ensures |Split(email, '@')| < 2 ==> r == Checked(false, [])
    ensures |Split(email, '@')| >= 2 ==>
      var domain := Split(email, '@')[1];
      |r.queries| >= 1 && r.queries[0] == Lookup(domain) &&
      match FirstExchange(net.resolve(domain))
      case None => r == Checked(false, [Lookup(domain)])
      case Some(host) => r.queries == [Lookup(domain), Session(Probe(host, Sender, email))]
    ensures r.ok <==> |r.queries| == 2 && r.queries[1].Session? &&
                      net.session(r.queries[1].probe) == Replied(RcptAccepted)
  {
    var parts := Split(email, '@');
    if |parts| < 2 then Checked(false, [])
    else
      var domain := parts[1];
      match FirstExchange(net.resolve(domain))
      case None => Checked(false, [Lookup(domain)])
      case Some(host) =>
        var probe := Probe(host, Sender, email);
        Checked(net.session(probe) == Replied(RcptAccepted), [Lookup(domain), Session(probe)])
  }

  /** Only the first exchange matters: two networks that agree on the
      domain's first exchange (or both fail to give one) and on the
      conversations with it give the same verdict, whatever the other
      exchanges are. */
  lemma SmtpCheckUsesFirstExchangeOnly(n1: Network, n2: Network, email: string)
    requires |Split(email, '@')| >= 2
    requires var d := Split(email, '@')[1];
      FirstExchange(n1.resolve(d)) == FirstExchange(n2.resolve(d))
    requires forall p: Probe :: n1.session(p) == n2.session(p)
    ensures SmtpCheck(n1, email) == SmtpCheck(n2, email)
  {
  }

  /** The exchange `smtp_check` talks to: the first record of the answer;
      None when the lookup raised or (`[0]` out of range) gave no record. */
  function FirstExchange(a: DnsAnswer): Option<string>
  {
    if a.Answer? && a.exchanges != [] then Some(a.exchanges[0]) else None
  }
}
