/**
 * topic_matches_sub of benchmark/mosquitto.py, a scan with two indices, against level-by-level matching (Appendix A of
 * the MQTT V3.1 specification).
 */
module TopicMatch {

  // ---------- the scan ----------

  /** The end of the level of topic that contains position j. */
  function LevelEnd(topic: string, j: nat): (k: nat)
    requires j <= |topic|
    ensures j <= k <= |topic| && (k == |topic| || topic[k] == '/') && forall i | j <= i < k :: topic[i] != '/'
    decreases |topic| - j
  {
    if j == |topic| || topic[j] == '/' then j else LevelEnd(topic, j + 1)
  }

  /** The check for foo matching foo/# that ends every pass. */
  predicate HashFollows(sub: string, topic: string, spos: nat, tpos: nat) {
    tpos == |topic| - 1 && spos == |sub| - 3 && sub[spos + 1] == '/' && sub[spos + 2] == '#'
  }

  /** What the scan answers from positions spos and tpos on. */
  function Scan(sub: string, topic: string, spos: nat, tpos: nat): bool
    requires spos <= |sub| && tpos <= |topic|
    decreases |sub| - spos, |topic| - tpos
  {
    if spos == |sub| || tpos == |topic| then
      spos == |sub| && tpos == |topic|
    else if sub[spos] == topic[tpos] then
      (tpos + 1 == |topic| && spos + 1 == |sub| - 1 && sub[spos + 1] == '+')
      || HashFollows(sub, topic, spos + 1, tpos + 1)
      || Scan(sub, topic, spos + 1, tpos + 1)
    else if sub[spos] == '+' then
      var end := LevelEnd(topic, tpos);
      HashFollows(sub, topic, spos + 1, end) || Scan(sub, topic, spos + 1, end)
    else
      sub[spos] == '#' && spos + 1 == |sub|
  }

  method TopicMatchesSub(sub: string, topic: string) returns (result: bool)
    ensures result == Scan(sub, topic, 0, 0)
  {
    result := true;
    var multilevelWildcard := false;
    var spos, tpos := 0, 0;
    while spos < |sub| && tpos < |topic|
      invariant spos <= |sub| && tpos <= |topic| && result && !multilevelWildcard
      invariant Scan(sub, topic, 0, 0) == Scan(sub, topic, spos, tpos)
      decreases |sub| - spos, |topic| - tpos
    {
      if sub[spos] == topic[tpos] {
        spos, tpos := spos + 1, tpos + 1;
        if tpos == |topic| && spos == |sub| - 1 && sub[spos] == '+' {
          return true;
        }
      } else if sub[spos] == '+' {
        spos := spos + 1;
        ghost var j := tpos;
        while tpos < |topic| && topic[tpos] != '/'
          invariant tpos <= |topic| && LevelEnd(topic, j) == LevelEnd(topic, tpos)
        {
          tpos := tpos + 1;
        }
        if tpos == |topic| && spos == |sub| {
          return true;
        }
      } else if sub[spos] == '#' {
        return spos + 1 == |sub|;
      } else {
        return false;
      }
      if tpos == |topic| - 1 {
        if spos == |sub| - 3 && sub[spos + 1] == '/' && sub[spos + 2] == '#' {
          return true;
        }
      }
    }
    if !multilevelWildcard && (tpos < |topic| || spos < |sub|) {
      result := false;
    }
  }

  // ---------- level by level ----------

  /** A name cut at its slashes. */
  function Levels(s: string): (levels: seq<string>)
    ensures levels != []
  {
    if s == "" then [""]
    else
      var rest := Levels(s[1..]);
      if s[0] == '/' then [""] + rest else [[s[0]] + rest[0]] + rest[1..]
  }

  predicate LevelsMatch(sub: seq<string>, topic: seq<string>) {
    |sub| == |topic| && forall i | 0 <= i < |sub| :: sub[i] == "+" || sub[i] == topic[i]
  }

  predicate Matches(sub: string, topic: string) {
    LevelsMatch(Levels(sub), Levels(topic))
  }

  /** Position i holds no '#', and if it holds a '+' then this fills a whole level. */
  predicate PlainAt(sub: string, i: nat)
    requires i < |sub|
  {
    sub[i] != '#' && (sub[i] == '+' ==> (i == 0 || sub[i - 1] == '/') && (i == |sub| - 1 || sub[i + 1] == '/'))
  }

  predicate PlainSubscription(sub: string) {
    forall i: nat | i < |sub| :: PlainAt(sub, i)
  }

  predicate PlainTopic(topic: string) {
    forall i | 0 <= i < |topic| :: topic[i] != '+' && topic[i] != '#'
  }

  lemma FirstLevel(s: string)
    ensures Levels(s)[0] == "" <==> s == "" || s[0] == '/'
    ensures Levels(s)[0] != "" ==> Levels(s)[0][0] == s[0]
  {
  }

  /** A level is a lone '+' only if the name starts so. */
  lemma LonePlus(s: string)
    ensures Levels(s)[0] == "+" <==> s != "" && s[0] == '+' && (|s| == 1 || s[1] == '/')
  {
    if s != "" {
      FirstLevel(s);
      FirstLevel(s[1..]);
    }
  }

  /** Equal characters can be dropped, unless what follows is a '+' in the middle of a level. */
  lemma DropEqual(s: string, t: string)
    requires s != "" && t != "" && s[0] == t[0] != '+'
    requires s[0] != '/' && |s| > 1 ==> s[1] != '+'
    ensures Matches(s, t) <==> Matches(s[1..], t[1..])
  {
    var a, b, x, y := Levels(s), Levels(t), Levels(s[1..]), Levels(t[1..]);
    LonePlus(s);
    LonePlus(s[1..]);
    if s[0] == '/' {
      assert a[1..] == x && b[1..] == y;
      TailsMatch(a, b);
    } else {
      assert a[1..] == x[1..] && b[1..] == y[1..];
      assert a[0][1..] == x[0] && b[0][1..] == y[0];
      TailsMatch(a, b);
      TailsMatch(x, y);
    }
  }

  lemma TailsMatch(a: seq<string>, b: seq<string>)
    requires a != [] && b != []
    ensures LevelsMatch(a, b) <==> (a[0] == "+" || a[0] == b[0]) && LevelsMatch(a[1..], b[1..])
  {
  }

  /** A '+' that fills its level can be dropped together with the whole level it meets. */
  lemma {:induction false} DropLevel(s: string, t: string, k: nat)
    requires s != "" && s[0] == '+' && (|s| > 1 ==> s[1] == '/')
    requires k <= |t| && (k == |t| || t[k] == '/') && forall i | 0 <= i < k :: t[i] != '/'
    ensures Matches(s, t) <==> Matches(s[1..], t[k..])
    decreases k
  {
    var a, x := Levels(s), Levels(s[1..]);
    LonePlus(s);
    FirstLevel(s[1..]);
    assert a[1..] == x[1..] && x[0] == "";
    LevelTail(t, k);
    TailsMatch(a, Levels(t));
    TailsMatch(x, Levels(t[k..]));
    FirstLevel(t[k..]);
  }

  lemma {:induction false} LevelTail(t: string, k: nat)
    requires k <= |t| && forall i | 0 <= i < k :: t[i] != '/'
    ensures Levels(t)[1..] == Levels(t[k..])[1..]
    decreases k
  {
    if k > 0 {
      LevelTail(t[1..], k - 1);
      assert t[1..][k - 1..] == t[k..];
      assert Levels(t)[1..] == Levels(t[1..])[1..];
    } else {
      assert t[0..] == t;
    }
  }

  /** Different characters, the first not a '+', cannot match. */
  lemma Differ(s: string, t: string)
    requires s != "" && t != "" && s[0] != t[0] && s[0] != '+'
    ensures !Matches(s, t)
  {
    FirstLevel(s);
    FirstLevel(t);
    LonePlus(s);
    TailsMatch(Levels(s), Levels(t));
  }

  /** When the topic is used up, only nothing or a '+' matches what is left. */
  lemma AtTheEnd(s: string)
    ensures Matches(s, "") <==> s == "" || s == "+"
    ensures Matches("", s) <==> s == ""
  {
    FirstLevel(s);
    LonePlus(s);
    TailsMatch(Levels(s), [""]);
    TailsMatch([""], Levels(s));
    if s != "" {
      if s[0] != '/' { FirstLevel(s[1..]); }
    }
  }

  /** The scan agrees from everywhere but where a lone '+' is left and no topic. */
  lemma {:induction false} ScanIsMatch(sub: string, topic: string, spos: nat, tpos: nat)
    requires PlainSubscription(sub) && PlainTopic(topic) && spos <= |sub| && tpos <= |topic|
    requires !(tpos == |topic| && sub[spos..] == "+")
    ensures Scan(sub, topic, spos, tpos) <==> Matches(sub[spos..], topic[tpos..])
    decreases |sub| - spos, |topic| - tpos
  {
    var s, t := sub[spos..], topic[tpos..];
    assert spos < |sub| ==> PlainAt(sub, spos);
    assert spos + 1 < |sub| ==> PlainAt(sub, spos + 1);
    assert |sub| > 0 ==> PlainAt(sub, |sub| - 1);
    if s == "" {
      AtTheEnd(t);
    } else if t == "" {
      AtTheEnd(s);
    } else if s[0] == t[0] {
      DropEqual(s, t);
      AtTheEnd(s[1..]);
      if !(t[1..] == "" && s[1..] == "+") {
        ScanIsMatch(sub, topic, spos + 1, tpos + 1);
      }
    } else if s[0] == '+' {
      var end := LevelEnd(topic, tpos);
      DropLevel(s, t, end - tpos);
      ScanIsMatch(sub, topic, spos + 1, end);
      assert t[end - tpos..] == topic[end..];
    } else {
      Differ(s, t);
    }
  }

  /**
   * Main result: for subscriptions without '#' whose '+' fill whole levels and topics without wildcards, the scan
   * agrees with matching level by level in all cases but one: the empty topic and the subscription "+".
   */
  lemma ScanAgrees(sub: string, topic: string)
    requires PlainSubscription(sub) && PlainTopic(topic)
    ensures (Scan(sub, topic, 0, 0) <==> Matches(sub, topic)) <==> !(topic == "" && sub == "+")
  {
    assert sub[0..] == sub && topic[0..] == topic;
    if topic == "" && sub == "+" {
      AtTheEnd(sub);
    } else {
      ScanIsMatch(sub, topic, 0, 0);
    }
  }

  // ---------- the multi-level wildcard ----------

  predicate Literal(s: string) {
    forall i | 0 <= i < |s| :: s[i] != '+' && s[i] != '#'
  }

  /** What p/# is meant to match: p itself and everything below it. */
  predicate HashMatches(p: string, topic: string) {
    topic == p || p + "/" <= topic
  }

  /** Two names of one length that differ in the last character only, if at all. */
  predicate SameButLast(p: string, topic: string) {
    |topic| == |p| > 0 && topic[..|p| - 1] == p[..|p| - 1]
  }

  lemma DifferentHere(p: string, topic: string, i: nat)
    requires i < |p| && i < |topic| && p[i] != topic[i]
    ensures !(p + "/" <= topic) && !(SameButLast(p, topic) && i < |p| - 1)
  {
  }

  lemma {:induction false} ScanHash(p: string, topic: string, i: nat)
    requires Literal(p) && Literal(topic) && i <= |p| && i <= |topic| && p[..i] == topic[..i]
    ensures Scan(p + "/#", topic, i, i) <==>
      (p + "/" <= topic && |topic| > |p| + 1) || (SameButLast(p, topic) && i < |p| - 1)
    decreases |p| - i
  {
    var sub := p + "/#";
    if i < |topic| {
      if i < |p| {
        assert sub[i] == p[i];
        if p[i] == topic[i] {
          assert p[..i + 1] == p[..i] + [p[i]] && topic[..i + 1] == topic[..i] + [topic[i]];
          ScanHash(p, topic, i + 1);
          assert HashFollows(sub, topic, i + 1, i + 1) <==> i + 1 == |p| - 1 && |topic| == |p|;
        } else {
          DifferentHere(p, topic, i);
        }
      } else {
        assert topic[..i] == p && sub[i] == '/' && sub[i + 1] == '#';
        if topic[i] == '/' {
          assert p + "/" == topic[..i + 1];
        }
      }
    }
  }

  /**
   * For p/# the scan is wrong in exactly three cases: it misses p itself when p has at most one character, it misses
   * p/, and it takes a topic for p that differs from p in the last character.
   */
  lemma HashAgreesExactly(p: string, topic: string)
    requires Literal(p) && Literal(topic)
    ensures (Scan(p + "/#", topic, 0, 0) <==> HashMatches(p, topic)) <==>
      !((topic == p && |p| <= 1) || topic == p + "/" || (|p| > 1 && topic != p && SameButLast(p, topic)))
  {
    ScanHash(p, topic, 0);
    if topic == p {
      assert !(p + "/" <= topic);
    }
    if p + "/" <= topic && |topic| <= |p| + 1 {
      assert topic == p + "/";
    }
  }

  /** One topic for each of these cases. */
  lemma HashFails()
    ensures !Scan("a/#", "a", 0, 0) && HashMatches("a", "a")
    ensures !Scan("ab/#", "ab/", 0, 0) && HashMatches("ab", "ab/")
    ensures Scan("ab/#", "ac", 0, 0) && !HashMatches("ab", "ac")
  {
    HashAgreesExactly("a", "a");
    HashAgreesExactly("ab", "ab/");
    HashAgreesExactly("ab", "ac");
    assert "a" + "/#" == "a/#" && "ab" + "/#" == "ab/#" && "ab" + "/" == "ab/";
    assert "ac"[..1] == "ab"[..1] && "ac" != "ab" && "ac"[1] != "ab"[1];
  }
}
