/**
 * The DuckMail client: it registers a throw-away mailbox, logs in to it,
 * waits for the message that carries a verification code and can delete the
 * account again.
 *
 * No request is sent here. Each method receives the reply its request would
 * get, the random part of the address, and the clock reading. The polling loop
 * receives the outcomes of the polls that start before its deadline.
 */
module Mailbox {
  import opened Chars
  import opened CodeExtractor

  /** The domain used when the service lists none. */
  const DefaultDomain: string := "duck.com"

  /**
   * What a request gives back. It either raised inside the client's `try`
   * block (network failure, timeout, undecodable JSON, a missing key), or it
   * returned a status code and a decoded body.
   */
  datatype Reply<T> = Raised | Status(code: int, body: T)

  /**
   * The body of `GET /domains`: the `hydra:member` list if the JSON has one.
   * Each member carries its `domain` field if it has one.
   */
  type DomainList = Option<seq<Option<string>>>

  /** The domain `register` uses: the first listed one, or the default when the listing fails or is empty. */
  function ChooseDomain(r: Reply<DomainList>): (d: string)
    ensures d != DefaultDomain ==> r.Status? && r.code == 200 && r.body.Some? && |r.body.value| > 0 && r.body.value[0] == Some(d)
    ensures r.Status? && r.code == 200 && r.body.Some? && |r.body.value| > 0 && r.body.value[0].Some? ==> d == r.body.value[0].value
  {
    if r.Status? && r.code == 200 && r.body.Some? && |r.body.value| > 0 && r.body.value[0].Some? then r.body.value[0].value
    else DefaultDomain
  }

  // ---------------------------------------------------------------------------
  // Credentials

  /** What `random.choices(ascii_lowercase + digits, k=10)` can produce. */
  predicate RandomToken(r: string)
  {
    |r| == 10 && forall i :: 0 <= i < |r| ==> IsAsciiLower(r[i]) || IsAsciiDigit(r[i])
  }

  /** The last four digits of the clock's whole seconds, or all of them if there are fewer. */
  function Stamp(now: nat): (s: string)
    ensures forall i :: 0 <= i < |s| ==> IsAsciiDigit(s[i])
    ensures 1 <= |s| <= 4
  {
    var d := DecimalString(now);
    if |d| <= 4 then d else d[|d| - 4..]
  }

  /** The stamp is the clock reading modulo 10000, written with exactly four digits once the clock reads at least 1000. */
  lemma StampIsClockModulo(now: nat)
    ensures ParseDecimal(Stamp(now)) == now % 10000
    ensures now >= 1000 ==> |Stamp(now)| == 4
  {
    var d := DecimalString(now);
    DecimalLength(now, 4);
    DecimalLength(now, 3);
    if |d| <= 4 {
      ParseDecimalString(now);
      assert d[|d| - |d|..] == d;
      DecimalSuffix(now, |d|);
    } else {
      DecimalSuffix(now, 4);
    }
  }

  /** `f"t{stamp}{rand}@{domain}"`: the local part is `t`, the stamp and the random part; the domain follows the `@`. */
  function Address(stamp: string, rand: string, domain: string): (a: string)
    ensures |a| == 2 + |stamp| + |rand| + |domain|
    ensures a[0] == 't' && a[1..1 + |stamp|] == stamp && a[1 + |stamp|..1 + |stamp| + |rand|] == rand
    ensures a[1 + |stamp| + |rand|] == '@' && a[2 + |stamp| + |rand|..] == domain
  {
    "t" + stamp + rand + "@" + domain
  }

  /** `f"Pwd{rand}{stamp}"`. */
  function Password(stamp: string, rand: string): (p: string)
    ensures |p| == 3 + |rand| + |stamp|
    ensures p[..3] == "Pwd" && p[3..3 + |rand|] == rand && p[3 + |rand|..] == stamp
  {
    "Pwd" + rand + stamp
  }

  /** The part of an address before its first `@` (all of it when there is none). */
  function LocalPart(a: string): string
  {
    a[..IndexOf(a, '@', 0)]
  }

  /** The part of an address after its first `@`, if it has one. */
  function DomainOf(a: string): Option<string>
  {
    var k := IndexOf(a, '@', 0);
    if k < |a| then Some(a[k + 1..]) else None
  }

  /** A generated address splits back into its local part and the domain it was built with. */
  lemma AddressSplits(stamp: string, rand: string, domain: string)
    requires forall i :: 0 <= i < |stamp| ==> IsAsciiDigit(stamp[i])
    requires RandomToken(rand)
    ensures LocalPart(Address(stamp, rand, domain)) == "t" + stamp + rand
    ensures DomainOf(Address(stamp, rand, domain)) == Some(domain)
  {
    var a := Address(stamp, rand, domain);
    var k := 1 + |stamp| + |rand|;
    assert a[k] == '@';
    assert forall j :: 0 <= j < k ==> a[j] != '@' by {
      forall j | 0 <= j < k
        ensures a[j] != '@'
      {
        if j == 0 {
        } else if j <= |stamp| {
          assert a[j] == stamp[j - 1];
        } else {
          assert a[j] == rand[j - 1 - |stamp|];
        }
      }
    }
    var f := IndexOf(a, '@', 0);
    assert f == k;
    assert a[..k] == "t" + stamp + rand;
    assert a[k + 1..] == domain;
  }

  /** The password holds the address's random part and stamp, in the other order. */
  lemma PasswordMatchesAddress(stamp: string, rand: string, domain: string)
    requires forall i :: 0 <= i < |stamp| ==> IsAsciiDigit(stamp[i])
    requires RandomToken(rand)
    ensures var p := Password(stamp, rand); LocalPart(Address(stamp, rand, domain)) == "t" + p[13..] + p[3..13]
  {
    var p := Password(stamp, rand);
    AddressSplits(stamp, rand, domain);
    assert p[3..13] == rand;
    assert p[13..] == stamp;
  }

  // ---------------------------------------------------------------------------
  // Messages and polls

  /** The detail of a message: its `text` and `html` fields where present. */
  datatype Message = Message(text: Option<string>, html: Option<string>)

  /** `data.get('text') or data.get('html') or ""`. */
  function Content(m: Message): (c: string)
    ensures c != "" ==> Some(c) == m.text || (!Truthy(m.text) && Some(c) == m.html)
    ensures c == "" <==> !Truthy(m.text) && !Truthy(m.html)
  {
    if Truthy(m.text) then m.text.value
    else if Truthy(m.html) then m.html.value
    else ""
  }

  /**
   * The body of `GET /messages`: the `hydra:member` list (empty when the key
   * is missing), newest first, each message with its `id` field if it has one.
   */
  type Listing = seq<Option<string>>

  /**
   * One iteration of the polling loop: the reply to the message listing, and
   * the reply the service gives to `GET /messages/{id}` for each id. Its
   * status is not looked at; a body that does not decode is `Raised`.
   */
  datatype Poll = Poll(listing: Reply<Listing>, detail: string -> Reply<Message>)

  /** The id whose detail the poll requests: that of the first listed message of a 200 listing. */
  function NewestId(p: Poll): (id: Option<string>)
    ensures id.Some? <==> p.listing.Status? && p.listing.code == 200 && |p.listing.body| > 0 && p.listing.body[0].Some?
    ensures id.Some? ==> id == p.listing.body[0]
  {
    if p.listing.Status? && p.listing.code == 200 && |p.listing.body| > 0 then p.listing.body[0] else None
  }

  /**
   * The code one poll yields: the detail of the newest listed message is
   * fetched and its content searched; a failed request, an empty listing or
   * a message without an id yields nothing.
   */
  function PollCode(p: Poll): (r: Option<string>)
    ensures r.Some? ==> NewestId(p).Some? && p.detail(NewestId(p).value).Status?
    ensures NewestId(p).Some? && p.detail(NewestId(p).value).Status? ==> r == ExtractCode(Content(p.detail(NewestId(p).value).body))
    ensures r.Some? ==> 4 <= |r.value| <= 8
  {
    var id := NewestId(p);
    if id.Some? && p.detail(id.value).Status? then ExtractCode(Content(p.detail(id.value).body)) else None
  }

  /** Only the newest listed message is read: older ones never change what a poll yields. */
  lemma PollReadsNewestOnly(code: int, newest: Option<string>, older: Listing, older': Listing, detail: string -> Reply<Message>)
    ensures PollCode(Poll(Status(code, [newest] + older), detail)) == PollCode(Poll(Status(code, [newest] + older'), detail))
  {
    assert ([newest] + older)[0] == newest;
    assert ([newest] + older')[0] == newest;
  }

  /** The code of the first poll that yields one. */
  function FirstCode(polls: seq<Poll>): (r: Option<string>)
    ensures r.Some? ==> 4 <= |r.value| <= 8
  {
    if polls == [] then None
    else if PollCode(polls[0]).Some? then PollCode(polls[0])
    else FirstCode(polls[1..])
  }

  /** How many polls the loop makes: up to and including the first that yields a code, else all of them. */
  function PollsMade(polls: seq<Poll>): (n: nat)
    ensures n <= |polls|
  {
    if polls == [] then 0
    else if PollCode(polls[0]).Some? then 1
    else 1 + PollsMade(polls[1..])
  }

  /**
   * A found code comes from the last poll made, and no earlier poll yielded
   * one; when nothing is found every poll was made and none yielded a code.
   */
  lemma {:induction false} PollsStopAtFirstCode(polls: seq<Poll>)
    ensures FirstCode(polls).Some? ==> 1 <= PollsMade(polls) && PollCode(polls[PollsMade(polls) - 1]) == FirstCode(polls)
    ensures forall i :: 0 <= i < PollsMade(polls) - 1 ==> PollCode(polls[i]).None?
    ensures FirstCode(polls).None? <==> PollsMade(polls) == |polls| && forall i :: 0 <= i < |polls| ==> PollCode(polls[i]).None?
  {
    if polls != [] && PollCode(polls[0]).None? {
      var rest := polls[1..];
      PollsStopAtFirstCode(rest);
      assert FirstCode(polls) == FirstCode(rest) && PollsMade(polls) == 1 + PollsMade(rest);
      assert forall i :: 1 <= i < |polls| ==> polls[i] == rest[i - 1];
    }
  }

  /** A poll that yields nothing, failed or empty, never ends the wait: the outcome is that of the later polls. */
  lemma FailedPollSkipped(p: Poll, polls: seq<Poll>)
    requires PollCode(p).None?
    ensures FirstCode([p] + polls) == FirstCode(polls)
    ensures PollsMade([p] + polls) == 1 + PollsMade(polls)
  {
    assert ([p] + polls)[1..] == polls;
  }

  // ---------------------------------------------------------------------------
  // The client

  /** A login request is made, and accepted, only when the client has an address. */
  predicate LoginAccepted(email: Option<string>, r: Reply<Option<string>>)
  {
    Truthy(email) && r.Status? && r.code == 200
  }

  class MailClient {
    var email: Option<string>
    var password: Option<string>
    var accountId: Option<string>
    var token: Option<string>

    constructor()
      ensures email == None && password == None && accountId == None && token == None
    {
      email := None;
      password := None;
      accountId := None;
      token := None;
    }

    /**
     * `register`: the address and password are set before the account
     * request, whatever its reply; the account id is taken from a 200 or 201
     * reply, which alone makes the registration succeed.
     */
    method Register(domains: Reply<DomainList>, rand: string, now: nat, reply: Reply<Option<string>>) returns (ok: bool)
      modifies this
      ensures email == Some(Address(Stamp(now), rand, ChooseDomain(domains)))
      ensures password == Some(Password(Stamp(now), rand))
      ensures ok <==> reply.Status? && (reply.code == 200 || reply.code == 201)
      ensures accountId == if ok then reply.body else old(accountId)
      ensures token == old(token)
    {
      var domain := ChooseDomain(domains);
      var stamp := Stamp(now);
      email := Some(Address(stamp, rand, domain));
      password := Some(Password(stamp, rand));
      if reply.Status? && (reply.code == 200 || reply.code == 201) {
        accountId := reply.body;
        ok := true;
      } else {
        ok := false;
      }
    }

    /**
     * `login`: without an address nothing is requested and nothing changes;
     * a 200 reply stores its token (which may be absent) and succeeds.
     */
    method Login(reply: Reply<Option<string>>) returns (ok: bool)
      modifies this
      ensures ok <==> LoginAccepted(old(email), reply)
      ensures token == if ok then reply.body else old(token)
      ensures email == old(email) && password == old(password) && accountId == old(accountId)
    {
      if !Truthy(email) {
        return false;
      }
      if reply.Status? && reply.code == 200 {
        token := reply.body;
        ok := true;
      } else {
        ok := false;
      }
    }

    /**
     * `wait_for_code`: without a token it first logs in, and gives up at once
     * if that fails. Otherwise it polls, in order, until a poll yields a code
     * or the polls before the deadline are used up. `made` is the number of
     * polls it makes.
     */
    method WaitForCode(login: Reply<Option<string>>, polls: seq<Poll>) returns (code: Option<string>, made: nat)
      modifies this
      ensures Truthy(old(token)) || LoginAccepted(old(email), login) ==> code == FirstCode(polls) && made == PollsMade(polls)
      ensures !Truthy(old(token)) && !LoginAccepted(old(email), login) ==> code == None && made == 0
      ensures token == if !Truthy(old(token)) && LoginAccepted(old(email), login) then login.body else old(token)
      ensures email == old(email) && password == old(password) && accountId == old(accountId)
    {
      if !Truthy(token) {
        var ok := Login(login);
        if !ok {
          return None, 0;
        }
      }
      var i := 0;
      while i < |polls|
        invariant 0 <= i <= |polls|
        invariant FirstCode(polls) == FirstCode(polls[i..])
        invariant PollsMade(polls) == i + PollsMade(polls[i..])
      {
        assert polls[i..][1..] == polls[i + 1..];
        var c := PollCode(polls[i]);
        if c.Some? {
          return c, i + 1;
        }
        i := i + 1;
      }
      return None, i;
    }

    /** `delete`: the deletion request is sent only when both the account id and the token are set. */
    method Delete() returns (sent: bool)
      ensures sent <==> Truthy(accountId) && Truthy(token)
    {
      if !Truthy(accountId) || !Truthy(token) {
        return false;
      }
      return true;
    }
  }
}
