/** Delivery of watchdog alerts: the bounded alert list in the key-value store, and e-mail
    escalation with a cooldown per alert type and node. */
module AlertDelivery {
  import opened Prelude

  // ------------------------------------------------------------ the alert list

  const ALERT_MAX := 100

  /** LPUSH followed by LTRIM 0..99. */
  function Push<A>(list: seq<A>, a: A): seq<A> { FirstN([a] + list, ALERT_MAX) }

  function PushAll<A>(list: seq<A>, pushed: seq<A>): seq<A> {
    if pushed == [] then list else Push(PushAll(list, pushed[..|pushed| - 1]), pushed[|pushed| - 1])
  }

  /** After any number of pushes the list holds the newest hundred alerts, newest first. */
  lemma {:induction false} ListIsNewest<A>(pushed: seq<A>)
    ensures PushAll([], pushed) == FirstN(Reverse(pushed), ALERT_MAX)
  {
    if pushed != [] {
      var front, last := pushed[..|pushed| - 1], pushed[|pushed| - 1];
      ListIsNewest(front);
      assert pushed == front + [last];
      ReverseConcat(front, [last]);
      assert Reverse([last]) == [last];
    }
  }

  // ------------------------------------------------------------ escalation

  datatype Severity = Info | Warning | Critical

  /** The fields of an alert that escalation looks at; a missing node counts as "system". */
  datatype Notice = Notice(kind: string, node: Option<string>, severity: Severity)

  datatype Escalation = Escalation(enabled: bool, recipient: string, severities: set<Severity>, cooldownMinutes: int)

  type CooldownKey = (string, string)

  function KeyOf(a: Notice): CooldownKey { (a.kind, if a.node.Some? && a.node.value != "" then a.node.value else "system") }

  /** An alert without a node stands for the system. */
  predicate ForSystem(a: Notice) { a.node == None || a.node == Some("") || a.node == Some("system") }

  /** The same type and the same node. */
  predicate SameTarget(a: Notice, b: Notice) {
    a.kind == b.kind && (a.node == b.node || (ForSystem(a) && ForSystem(b)))
  }

  lemma KeysAreTargets(a: Notice, b: Notice)
    ensures KeyOf(a) == KeyOf(b) <==> SameTarget(a, b)
  {
  }

  predicate Eligible(cfg: Escalation, a: Notice) {
    cfg.enabled && cfg.recipient != "" && a.severity in cfg.severities
  }

  /** An alert handed to escalation at a time (in seconds). */
  datatype Attempt = Attempt(notice: Notice, now: int)

  function CooldownSeconds(cfg: Escalation): int { cfg.cooldownMinutes * 60 }

  /** A cooldown entry that has not expired yet. */
  predicate Cooling(expiry: map<CooldownKey, int>, key: CooldownKey, now: int) {
    key in expiry && now < expiry[key]
  }

  class Escalator {
    const cfg: Escalation
    var expiry: map<CooldownKey, int>
    ghost var run: seq<Attempt>

    ghost predicate Valid()
      reads this
    {
      expiry == Expiry(cfg, run)
    }

    constructor (cfg: Escalation)
      ensures Valid() && run == [] && this.cfg == cfg
    {
      this.cfg := cfg;
      expiry, run := map[], [];
    }

    /** Whether a mail is sent; the cooldown entry is written before the mail goes out. The store
        refuses an entry that would not live at all, and the mail is then sent without one. */
    method MaybeEscalate(a: Attempt) returns (sent: bool)
      requires Valid()
      modifies this
      ensures Valid() && run == old(run) + [a] && sent == SentAt(cfg, run, |run| - 1)
    {
      run := run + [a];
      assert run[..|run| - 1] == old(run);
      if !cfg.enabled || cfg.recipient == "" || a.notice.severity !in cfg.severities {
        return false;
      }
      var key := KeyOf(a.notice);
      if key in expiry && a.now < expiry[key] {
        return false;
      }
      if CooldownSeconds(cfg) > 0 {
        expiry := expiry[key := a.now + CooldownSeconds(cfg)];
      }
      return true;
    }
  }

  /** The cooldown entries after a run. */
  function Expiry(cfg: Escalation, run: seq<Attempt>): map<CooldownKey, int> {
    if run == [] then map[]
    else
      var before, a := Expiry(cfg, run[..|run| - 1]), run[|run| - 1];
      if Eligible(cfg, a.notice) && !Cooling(before, KeyOf(a.notice), a.now) && CooldownSeconds(cfg) > 0
      then before[KeyOf(a.notice) := a.now + CooldownSeconds(cfg)] else before
  }

  /** Attempt i of the run sends a mail. */
  predicate SentAt(cfg: Escalation, run: seq<Attempt>, i: nat)
    requires i < |run|
  {
    Eligible(cfg, run[i].notice) && !Cooling(Expiry(cfg, run[..i]), KeyOf(run[i].notice), run[i].now)
  }

  ghost predicate Chronological(run: seq<Attempt>) {
    forall i, j :: 0 <= i <= j < |run| ==> run[i].now <= run[j].now
  }

  /** The latest mail for a key before attempt i determines the entry. */
  lemma {:induction false} ExpiryIsLatest(cfg: Escalation, run: seq<Attempt>, i: nat, key: CooldownKey) returns (j: nat)
    requires i <= |run| && CooldownSeconds(cfg) > 0
    ensures key in Expiry(cfg, run[..i]) ==>
              && j < i && SentAt(cfg, run, j) && KeyOf(run[j].notice) == key
              && Expiry(cfg, run[..i])[key] == run[j].now + CooldownSeconds(cfg)
              && forall k :: j < k < i && KeyOf(run[k].notice) == key ==> !SentAt(cfg, run, k)
    ensures key !in Expiry(cfg, run[..i]) ==>
              forall k :: 0 <= k < i && KeyOf(run[k].notice) == key ==> !SentAt(cfg, run, k)
  {
    j := 0;
    if i > 0 {
      assert run[..i][..i - 1] == run[..i - 1] && run[..i][i - 1] == run[i - 1];
      if SentAt(cfg, run, i - 1) && KeyOf(run[i - 1].notice) == key {
        j := i - 1;
      } else {
        j := ExpiryIsLatest(cfg, run, i - 1, key);
      }
    }
  }

  lemma {:induction false} NoEntries(cfg: Escalation, run: seq<Attempt>)
    requires CooldownSeconds(cfg) <= 0
    ensures Expiry(cfg, run) == map[]
  {
    if run != [] {
      NoEntries(cfg, run[..|run| - 1]);
    }
  }

  /** An eligible alert is mailed exactly when no mail for the same type and node was sent less than
      the cooldown before it. */
  lemma EscalationIsExact(cfg: Escalation, run: seq<Attempt>, i: nat)
    requires i < |run| && Chronological(run)
    ensures SentAt(cfg, run, i)
            <==> (&& cfg.enabled && cfg.recipient != "" && run[i].notice.severity in cfg.severities
                  && forall j :: 0 <= j < i && SentAt(cfg, run, j) && SameTarget(run[j].notice, run[i].notice)
                       ==> run[i].now >= run[j].now + cfg.cooldownMinutes * 60)
  {
    forall j | 0 <= j < i ensures KeyOf(run[j].notice) == KeyOf(run[i].notice) <==> SameTarget(run[j].notice, run[i].notice) {
      KeysAreTargets(run[j].notice, run[i].notice);
    }
    var key := KeyOf(run[i].notice);
    if CooldownSeconds(cfg) <= 0 {
      NoEntries(cfg, run[..i]);
      return;
    }
    var last := ExpiryIsLatest(cfg, run, i, key);
    if key in Expiry(cfg, run[..i]) {
      forall j | 0 <= j < i && SentAt(cfg, run, j) && KeyOf(run[j].notice) == key ensures run[j].now <= run[last].now {
        assert j <= last;
      }
    }
  }

  /** Two mails for one alert type and node are at least one cooldown apart. */
  lemma MailsAreSpaced(cfg: Escalation, run: seq<Attempt>, i: nat, j: nat)
    requires i < j < |run| && Chronological(run)
    requires SentAt(cfg, run, i) && SentAt(cfg, run, j) && SameTarget(run[i].notice, run[j].notice)
    ensures run[j].now - run[i].now >= cfg.cooldownMinutes * 60
  {
    EscalationIsExact(cfg, run, j);
  }
}
