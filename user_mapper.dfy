/** Identity reconciliation between GitHub usernames and Jira emails: both sides are
    reduced to a key (the lowercased username with one organisation suffix removed, the
    lowercased local part of the email), the candidates are scanned for an exact key match
    or else the best fuzzy score, and one mapping is emitted per matched, non-bot user.
    The string similarity ratio is the `sim` parameter; the order in which the set of Jira
    emails is enumerated is the order of the `emails` sequence. */
module UserMapper {
  import opened Base
  import opened Sorting

  /** The organisation suffixes, tried in this order; at most one is removed. */
  const Suffixes: seq<string> := ["-gcmlp", "-gcm", "gcmlp", "gcm"]

  /** Characters stripped from the end of a GitHub key. */
  const TrailingSeparators: set<char> := {'-', '_'}

  /** The least score of a candidate whose key contains, or is contained in, the user's. */
  const ContainmentFloor: real := 0.85

  /** The score a fuzzy match needs by default. */
  const DefaultThreshold: real := 0.7

  /** Substrings of a lowercased username that mark a bot or system account. */
  const BotPatterns: seq<string> := ["[bot]", "copilot", "dependabot", "devops-"]

  /** The name with the first of `suffixes` it ends with removed, or unchanged. */
  function StripSuffix(name: string, suffixes: seq<string>): (r: string)
    ensures |r| <= |name| && r == name[..|r|]
  {
    if suffixes == [] then name
    else if EndsWith(name, suffixes[0]) then name[..|name| - |suffixes[0]|]
    else StripSuffix(name, suffixes[1..])
  }

  /** The key of a GitHub username: lowercased, one suffix removed, trailing `-` and `_`
      stripped. */
  function GithubKey(username: string): string {
    RStrip(StripSuffix(Lower(username), Suffixes), TrailingSeparators)
  }

  /** `normalize_github_username`: the suffixes are tried in order and the first that
      matches is removed. */
  method NormalizeGithubUsername(username: string) returns (name: string)
    ensures name == GithubKey(username)
    ensures name == Lower(username)[..|name|]
    ensures name == [] || name[|name| - 1] !in TrailingSeparators
  {
    var lowered := Lower(username);
    name := lowered;
    var suffixes := Suffixes;
    for k := 0 to |suffixes|
      invariant name == lowered
      invariant StripSuffix(lowered, suffixes) == StripSuffix(lowered, suffixes[k..])
    {
      StripSuffixAt(lowered, suffixes, k);
      if EndsWith(lowered, suffixes[k]) {
        name := lowered[..|lowered| - |suffixes[k]|];
        break;
      }
    }
    ghost var stripped := StripSuffix(lowered, suffixes);
    assert name == stripped;
    name := RStrip(name, TrailingSeparators);
    assert name == stripped[..|name|] && stripped == lowered[..|stripped|];
  }

  /** The suffix loop at position k: the k-th suffix is removed if the name ends with it,
      otherwise the search goes on with the next. */
  lemma StripSuffixAt(name: string, suffixes: seq<string>, k: nat)
    requires k < |suffixes|
    ensures StripSuffix(name, suffixes[k..])
            == if EndsWith(name, suffixes[k]) then name[..|name| - |suffixes[k]|]
               else StripSuffix(name, suffixes[k + 1..])
  {
    assert suffixes[k..][1..] == suffixes[k + 1..];
  }

  /** `normalize_jira_email`: the lowercased text before the first `@`; the whole email
      lowercased when it has none; "" for an empty email (Python's None is "" here). */
  function NormalizeJiraEmail(email: string): (r: string)
    ensures '@' !in email ==> r == Lower(email)
  {
    if email == "" || '@' !in email then Lower(email)
    else Lower(BeforeFirst(email, '@'))
  }

  /** The key of an email is its lowercased local part. */
  lemma JiraKeyIsLocalPart(local: string, domain: string)
    requires '@' !in local
    ensures NormalizeJiraEmail(local + "@" + domain) == Lower(local)
  {
    assert local + "@" + domain == local + ['@'] + domain;
    BeforeFirstOfJoined(local, domain, '@');
  }

  /** The fuzzy score of a candidate key: the similarity ratio, raised to the containment
      floor when one key occurs inside the other. */
  function Score(key: string, candidate: string, sim: (string, string) -> real): real {
    var s := sim(key, candidate);
    if Contains(candidate, key) || Contains(key, candidate) then
      if s >= ContainmentFloor then s else ContainmentFloor
    else s
  }

  /** The score of an email against a GitHub key. */
  function ScoreOf(key: string, email: string, sim: (string, string) -> real): real {
    Score(key, NormalizeJiraEmail(email), sim)
  }

  /** The state of the candidate scan: an exact key match ends it; otherwise the best
      candidate so far and its score. */
  datatype Scan = Exact(email: string) | Best(candidate: Option<string>, score: real)

  /** One candidate read by the scan. */
  function Step(st: Scan, key: string, email: string, sim: (string, string) -> real): Scan {
    var other := NormalizeJiraEmail(email);
    if st.Exact? || other == "" then st
    else if key == other then Exact(email)
    else if Score(key, other, sim) > st.score then Best(Some(email), Score(key, other, sim))
    else st
  }

  /** The scan over the candidates in enumeration order, from no candidate and score 0. */
  function ScanOf(key: string, emails: seq<string>, sim: (string, string) -> real): Scan {
    if emails == [] then Best(None, 0.0)
    else Step(ScanOf(key, emails[..|emails| - 1], sim), key, emails[|emails| - 1], sim)
  }

  /** What `find_best_jira_match` returns: an email and its score, or none and 0. */
  datatype Match = Match(email: Option<string>, score: real)

  /** The outcome of the search: nothing for an empty key, the exact match with 1.0, the
      best candidate when its score reaches the threshold, and nothing otherwise. */
  function BestJiraMatch(username: string, emails: seq<string>, threshold: real,
                         sim: (string, string) -> real): Match {
    var key := GithubKey(username);
    if key == "" then Match(None, 0.0)
    else
      match ScanOf(key, emails, sim)
      case Exact(e) => Match(Some(e), 1.0)
      case Best(c, s) => if s >= threshold then Match(c, s) else Match(None, 0.0)
  }

  lemma ScanPrefixSnoc(key: string, emails: seq<string>, i: nat, sim: (string, string) -> real)
    requires i < |emails|
    ensures ScanOf(key, emails[..i + 1], sim) == Step(ScanOf(key, emails[..i], sim), key, emails[i], sim)
  {
    assert emails[..i + 1][..i] == emails[..i];
  }

  /** Once a prefix has matched exactly, the rest of the candidates change nothing. */
  lemma {:induction false} ExactSticks(key: string, emails: seq<string>, k: nat, sim: (string, string) -> real)
    requires k <= |emails|
    requires ScanOf(key, emails[..k], sim).Exact?
    ensures ScanOf(key, emails, sim) == ScanOf(key, emails[..k], sim)
  {
    if k < |emails| {
      var init := emails[..|emails| - 1];
      assert init[..k] == emails[..k];
      ExactSticks(key, init, k, sim);
    } else {
      assert emails[..k] == emails;
    }
  }

  /** `find_best_jira_match`: candidates with an empty key are skipped, the first exact key
      match returns at once with 1.0, and otherwise a candidate replaces the best only with
      a strictly greater score. */
  method FindBestJiraMatch(username: string, emails: seq<string>, threshold: real,
                           sim: (string, string) -> real)
    returns (email: Option<string>, score: real)
    ensures Match(email, score) == BestJiraMatch(username, emails, threshold, sim)
  {
    var key := NormalizeGithubUsername(username);
    if key == "" {
      return None, 0.0;
    }
    var bestMatch: Option<string> := None;
    var bestScore: real := 0.0;
    for i := 0 to |emails|
      invariant ScanOf(key, emails[..i], sim) == Best(bestMatch, bestScore)
    {
      var candidate := emails[i];
      ScanPrefixSnoc(key, emails, i, sim);
      var other := NormalizeJiraEmail(candidate);
      if other == "" {
        continue;
      }
      if key == other {
        ExactSticks(key, emails, i + 1, sim);
        return Some(candidate), 1.0;
      }
      var s := sim(key, other);
      if Contains(other, key) || Contains(key, other) {
        s := if s >= ContainmentFloor then s else ContainmentFloor;
      }
      if s > bestScore {
        bestScore := s;
        bestMatch := Some(candidate);
      }
    }
    assert emails[..|emails|] == emails;
    if bestScore >= threshold {
      return bestMatch, bestScore;
    }
    return None, 0.0;
  }

  /** The first exact key match decides the scan. */
  lemma {:induction false} ScanFindsFirstExact(key: string, emails: seq<string>, i: nat, sim: (string, string) -> real)
    requires key != "" && i < |emails|
    requires NormalizeJiraEmail(emails[i]) == key
    requires forall j :: 0 <= j < i ==> NormalizeJiraEmail(emails[j]) != key
    ensures ScanOf(key, emails, sim) == Exact(emails[i])
  {
    ScanBound(key, emails[..i], sim);
    ScanPrefixSnoc(key, emails, i, sim);
    ExactSticks(key, emails, i + 1, sim);
  }

  /** Without an exact key match the scan keeps a score of at least 0, and every
      candidate with a non-empty key scores at most the kept score; with no candidate kept
      the score is 0. */
  lemma {:induction false} ScanBound(key: string, emails: seq<string>, sim: (string, string) -> real)
    requires forall j :: 0 <= j < |emails| ==> NormalizeJiraEmail(emails[j]) != key
    ensures ScanOf(key, emails, sim).Best?
    ensures ScanOf(key, emails, sim).score >= 0.0
    ensures forall j :: 0 <= j < |emails| && NormalizeJiraEmail(emails[j]) != "" ==>
              ScoreOf(key, emails[j], sim) <= ScanOf(key, emails, sim).score
    ensures ScanOf(key, emails, sim).candidate.None? ==> ScanOf(key, emails, sim).score == 0.0
  {
    if emails != [] {
      var n := |emails| - 1;
      ScanBound(key, emails[..n], sim);
      forall j | 0 <= j < n ensures emails[j] == emails[..n][j] {
      }
    }
  }

  /** Without an exact key match a kept candidate is the first of greatest score: it is
      one of the candidates, its score is its own and positive, and those before it score
      strictly less. */
  lemma {:induction false} ScanWitness(key: string, emails: seq<string>, sim: (string, string) -> real)
    requires forall j :: 0 <= j < |emails| ==> NormalizeJiraEmail(emails[j]) != key
    ensures ScanOf(key, emails, sim).Best? && ScanOf(key, emails, sim).candidate.Some? ==>
              exists i :: 0 <= i < |emails| && emails[i] == ScanOf(key, emails, sim).candidate.value
                && NormalizeJiraEmail(emails[i]) != ""
                && ScoreOf(key, emails[i], sim) == ScanOf(key, emails, sim).score > 0.0
                && forall j :: 0 <= j < i && NormalizeJiraEmail(emails[j]) != "" ==>
                     ScoreOf(key, emails[j], sim) < ScanOf(key, emails, sim).score
  {
    if emails != [] {
      var n := |emails| - 1;
      var init := emails[..n];
      var st := ScanOf(key, init, sim);
      var st' := ScanOf(key, emails, sim);
      ScanBound(key, init, sim);
      if st' != st {
        assert emails[n] == st'.candidate.value;
        forall j | 0 <= j < n && NormalizeJiraEmail(emails[j]) != ""
          ensures ScoreOf(key, emails[j], sim) < st'.score
        {
          assert emails[j] == init[j];
        }
      } else if st'.candidate.Some? {
        ScanWitness(key, init, sim);
        var i :| 0 <= i < |init| && init[i] == st.candidate.value
                 && NormalizeJiraEmail(init[i]) != ""
                 && ScoreOf(key, init[i], sim) == st.score > 0.0
                 && forall j :: 0 <= j < i && NormalizeJiraEmail(init[j]) != "" ==>
                      ScoreOf(key, init[j], sim) < st.score;
        assert emails[i] == init[i];
        forall j | 0 <= j < i && NormalizeJiraEmail(emails[j]) != ""
          ensures ScoreOf(key, emails[j], sim) < st'.score
        {
          assert emails[j] == init[j];
        }
      }
    }
  }

  /** The three outcomes of the search, both ways: an exact key match gives its first
      candidate with 1.0; otherwise a candidate is returned only with its own score, at
      least the threshold, no lower than any other candidate's and higher than those before
      it; and nothing is returned, with score 0, exactly when the key is empty or no
      candidate reaches the threshold with a positive score. */
  lemma BestJiraMatchCases(username: string, emails: seq<string>, threshold: real,
                           sim: (string, string) -> real)
    ensures var key := GithubKey(username);
            var r := BestJiraMatch(username, emails, threshold, sim);
            && (r.email.None? ==> r.score == 0.0)
            && (key != "" && (exists i :: 0 <= i < |emails| && NormalizeJiraEmail(emails[i]) == key) ==>
                  exists i :: 0 <= i < |emails| && NormalizeJiraEmail(emails[i]) == key
                    && r == Match(Some(emails[i]), 1.0)
                    && forall j :: 0 <= j < i ==> NormalizeJiraEmail(emails[j]) != key)
            && (key != "" && (forall i :: 0 <= i < |emails| ==> NormalizeJiraEmail(emails[i]) != key) ==>
                  && (r.email.Some? ==>
                        && r.score >= threshold && r.score > 0.0
                        && (exists i :: 0 <= i < |emails| && emails[i] == r.email.value
                              && ScoreOf(key, emails[i], sim) == r.score
                              && forall j :: 0 <= j < i && NormalizeJiraEmail(emails[j]) != "" ==>
                                   ScoreOf(key, emails[j], sim) < r.score)
                        && (forall j :: 0 <= j < |emails| && NormalizeJiraEmail(emails[j]) != "" ==>
                              ScoreOf(key, emails[j], sim) <= r.score))
                  && (r.email.None? <==>
                        forall j :: 0 <= j < |emails| && NormalizeJiraEmail(emails[j]) != "" ==>
                          ScoreOf(key, emails[j], sim) <= 0.0 || ScoreOf(key, emails[j], sim) < threshold))
  {
    var key := GithubKey(username);
    if key != "" {
      if exists i :: 0 <= i < |emails| && NormalizeJiraEmail(emails[i]) == key {
        var i := FirstWith(emails, NormalizeJiraEmail, key);
        ScanFindsFirstExact(key, emails, i, sim);
      } else {
        ScanBound(key, emails, sim);
        ScanWitness(key, emails, sim);
      }
    }
  }

  /** The position of the first element on which `f` gives `v`. */
  lemma FirstWith<T>(s: seq<T>, f: T -> string, v: string) returns (i: nat)
    requires exists i :: 0 <= i < |s| && f(s[i]) == v
    ensures i < |s| && f(s[i]) == v
    ensures forall j :: 0 <= j < i ==> f(s[j]) != v
  {
    i := 0;
    while f(s[i]) != v
      invariant i < |s|
      invariant forall j :: 0 <= j < i ==> f(s[j]) != v
      invariant exists k :: i <= k < |s| && f(s[k]) == v
      decreases |s| - i
    {
      i := i + 1;
    }
  }

  /** The containment floor: when one candidate's key contains the user's key or lies
      inside it and the threshold is at most 0.85, some candidate is returned, with a score
      of at least 0.85. */
  lemma ContainmentIsEnough(username: string, emails: seq<string>, threshold: real,
                            sim: (string, string) -> real, j: nat)
    requires j < |emails| && GithubKey(username) != ""
    requires NormalizeJiraEmail(emails[j]) != ""
    requires Contains(NormalizeJiraEmail(emails[j]), GithubKey(username))
             || Contains(GithubKey(username), NormalizeJiraEmail(emails[j]))
    requires threshold <= ContainmentFloor
    ensures BestJiraMatch(username, emails, threshold, sim).email.Some?
    ensures BestJiraMatch(username, emails, threshold, sim).score >= ContainmentFloor
  {
    BestJiraMatchCases(username, emails, threshold, sim);
  }

  /** With a similarity ratio in [0, 1], every returned score lies in [0, 1]. */
  lemma MatchScoreInUnitInterval(username: string, emails: seq<string>, threshold: real,
                                 sim: (string, string) -> real)
    requires forall a, b :: 0.0 <= sim(a, b) <= 1.0
    ensures 0.0 <= BestJiraMatch(username, emails, threshold, sim).score <= 1.0
  {
    var key := GithubKey(username);
    BestJiraMatchCases(username, emails, threshold, sim);
    var r := BestJiraMatch(username, emails, threshold, sim);
    if key != "" && r.email.Some? && forall i :: 0 <= i < |emails| ==> NormalizeJiraEmail(emails[i]) != key {
      var i :| 0 <= i < |emails| && emails[i] == r.email.value && ScoreOf(key, emails[i], sim) == r.score;
      assert sim(key, NormalizeJiraEmail(emails[i])) <= 1.0;
    }
  }

  lemma LowerOfLowercase(a: string, b: string)
    requires Lower(a) == a && Lower(b) == b
    ensures Lower(a + b) == a + b
  {
    forall i | 0 <= i < |a| ensures LowerChar(a[i]) == a[i] {
      assert Lower(a)[i] == LowerChar(a[i]);
    }
    forall i | 0 <= i < |b| ensures LowerChar(b[i]) == b[i] {
      assert Lower(b)[i] == LowerChar(b[i]);
    }
  }

  lemma EndsWithAppended(a: string, b: string)
    ensures EndsWith(a + b, b)
  {
    assert (a + b)[|a + b| - |b|..] == b;
  }

  /** A name does not end with `t` when some position of `t` disagrees with it. */
  lemma NotEndsWith(name: string, t: string, k: nat)
    requires k < |t|
    requires |t| > |name| || name[|name| - |t| + k] != t[k]
    ensures !EndsWith(name, t)
  {
    if |t| <= |name| {
      assert name[|name| - |t|..][k] == name[|name| - |t| + k];
    }
  }

  /** Appending one of the suffixes to a name not ending in `-` gives a name from which
      exactly that suffix is removed. */
  lemma StripAppendedSuffix(local: string, suffix: string)
    requires local != [] && local[|local| - 1] != '-'
    requires suffix in Suffixes
    ensures StripSuffix(local + suffix, Suffixes) == local
  {
    var name := local + suffix;
    var n := |local|;
    assert name[..n] == local;
    assert name[n - 1] == local[n - 1];
    EndsWithAppended(local, suffix);
    if suffix == "-gcmlp" {
    } else if suffix == "-gcm" {
      NotEndsWith(name, Suffixes[0], 5);
      assert StripSuffix(name, Suffixes[1..]) == local;
    } else if suffix == "gcmlp" {
      NotEndsWith(name, Suffixes[0], 0);
      NotEndsWith(name, Suffixes[1], 3);
      assert StripSuffix(name, Suffixes[2..]) == local;
      assert Suffixes[1..][1..] == Suffixes[2..];
    } else {
      NotEndsWith(name, Suffixes[0], 5);
      NotEndsWith(name, Suffixes[1], 0);
      NotEndsWith(name, Suffixes[2], 4);
      assert StripSuffix(name, Suffixes[3..]) == local;
      assert Suffixes[2..][1..] == Suffixes[3..];
      assert Suffixes[1..][1..] == Suffixes[2..];
    }
  }

  /** The naming convention the normalisation serves: a username made of a Jira local part
      and one of the suffixes has the same key as every email with that local part. */
  lemma SuffixedNameMatchesEmail(local: string, suffix: string, domain: string)
    requires local != [] && '@' !in local && Lower(local) == local
    requires local[|local| - 1] !in TrailingSeparators
    requires suffix in Suffixes
    ensures GithubKey(local + suffix) == local
    ensures NormalizeJiraEmail(local + "@" + domain) == local
  {
    SuffixIsLowercase(suffix);
    var name := local + suffix;
    LowerOfLowercase(local, suffix);
    StripAppendedSuffix(local, suffix);
    assert GithubKey(name) == RStrip(local, TrailingSeparators);
    JiraKeyIsLocalPart(local, domain);
  }

  lemma SuffixIsLowercase(suffix: string)
    requires suffix in Suffixes
    ensures Lower(suffix) == suffix
  {
    NoCapitals(suffix);
  }

  lemma NoCapitals(s: string)
    requires forall i :: 0 <= i < |s| ==> !('A' <= s[i] <= 'Z')
    ensures Lower(s) == s
  {
  }

  /** Such a username is matched exactly, with score 1.0, by the first email with that
      local part, whatever the threshold and the similarity ratio. */
  lemma SuffixedNameMatchedExactly(local: string, suffix: string, emails: seq<string>, i: nat,
                                   domain: string, threshold: real, sim: (string, string) -> real)
    requires local != [] && '@' !in local && Lower(local) == local
    requires local[|local| - 1] !in TrailingSeparators
    requires suffix in Suffixes
    requires i < |emails| && emails[i] == local + "@" + domain
    requires forall j :: 0 <= j < i ==> NormalizeJiraEmail(emails[j]) != local
    ensures BestJiraMatch(local + suffix, emails, threshold, sim) == Match(Some(emails[i]), 1.0)
  {
    SuffixedNameMatchesEmail(local, suffix, domain);
    ScanFindsFirstExact(local, emails, i, sim);
  }

  /** One entry of the mapping list. */
  datatype Mapping = Mapping(github: string, jira: string)

  /** A bot or system account: its lowercased name contains one of the patterns. */
  predicate IsBot(username: string) {
    exists k :: 0 <= k < |BotPatterns| && Contains(Lower(username), BotPatterns[k])
  }

  /** The email a user is mapped to: none for a bot or a user the search leaves unmatched. */
  function MappedEmail(emails: seq<string>, threshold: real, sim: (string, string) -> real): string -> Option<string> {
    u => var m := BestJiraMatch(u, emails, threshold, sim);
         if !IsBot(u) && Truthy(m.email) then Some(m.email.value) else None
  }

  /** The mappings of users visited in the given order, one per user `f` maps. */
  function Paired(users: seq<string>, f: string -> Option<string>): seq<Mapping> {
    if users == [] then []
    else
      var u := users[|users| - 1];
      Paired(users[..|users| - 1], f) + (if f(u).Some? then [Mapping(u, f(u).value)] else [])
  }

  /** The mappings of users visited in the given order: one per non-bot user whose search
      returned an email. */
  function MappingsOf(users: seq<string>, emails: seq<string>, threshold: real,
                      sim: (string, string) -> real): seq<Mapping> {
    Paired(users, MappedEmail(emails, threshold, sim))
  }

  /** `build_user_mappings` over the set of GitHub usernames (listed in any order, repeats
      allowed) and the enumeration of the Jira emails: the users are visited sorted. */
  function UserMappings(githubUsers: seq<string>, emails: seq<string>, threshold: real,
                        sim: (string, string) -> real): seq<Mapping> {
    MappingsOf(SortStrings(Distinct(githubUsers)), emails, threshold, sim)
  }

  lemma PairedPrefixSnoc(users: seq<string>, i: nat, f: string -> Option<string>)
    requires i < |users|
    ensures Paired(users[..i + 1], f)
            == Paired(users[..i], f) + (if f(users[i]).Some? then [Mapping(users[i], f(users[i]).value)] else [])
  {
    assert users[..i + 1][..i] == users[..i];
  }

  /** The mapping loop: bots are skipped, every other user is searched for in turn, and a
      returned email is appended with the user. */
  method BuildUserMappings(githubUsers: seq<string>, emails: seq<string>, threshold: real,
                           sim: (string, string) -> real)
    returns (mappings: seq<Mapping>)
    ensures mappings == UserMappings(githubUsers, emails, threshold, sim)
  {
    var users := SortStrings(Distinct(githubUsers));
    ghost var f := MappedEmail(emails, threshold, sim);
    mappings := [];
    for i := 0 to |users|
      invariant mappings == Paired(users[..i], f)
    {
      var user := users[i];
      PairedPrefixSnoc(users, i, f);
      if IsBot(user) {
        continue;
      }
      var email, score := FindBestJiraMatch(user, emails, threshold, sim);
      if email.Some? && email.value != "" {
        mappings := mappings + [Mapping(user, email.value)];
      }
    }
    assert users[..|users|] == users;
  }

  /** The mappings are exactly the users `f` maps, each paired with its email. */
  lemma {:induction false} PairedExact(users: seq<string>, f: string -> Option<string>, m: Mapping)
    ensures m in Paired(users, f) <==> m.github in users && f(m.github) == Some(m.jira)
  {
    if users != [] {
      PairedExact(users[..|users| - 1], f, m);
      SplitLast(users);
    }
  }

  /** The mappings are exactly the non-bot users with a returned, non-empty email, each
      paired with that email. */
  lemma MappingsExact(users: seq<string>, emails: seq<string>, threshold: real,
                      sim: (string, string) -> real, m: Mapping)
    ensures m in MappingsOf(users, emails, threshold, sim) <==>
              m.github in users && !IsBot(m.github)
              && Truthy(BestJiraMatch(m.github, emails, threshold, sim).email)
              && m.jira == BestJiraMatch(m.github, emails, threshold, sim).email.value
  {
    PairedExact(users, MappedEmail(emails, threshold, sim), m);
  }

  /** Visiting the users in strictly ascending order gives mappings in strictly ascending
      order of GitHub username. */
  lemma {:induction false} PairedInOrder(users: seq<string>, f: string -> Option<string>)
    requires StrictlySorted(users)
    ensures var ms := Paired(users, f);
            forall i, j :: 0 <= i < j < |ms| ==> StrLt(ms[i].github, ms[j].github)
  {
    if users != [] {
      var n := |users| - 1;
      var init := users[..n];
      assert StrictlySorted(init);
      PairedInOrder(init, f);
      var front := Paired(init, f);
      var ms := Paired(users, f);
      if |ms| > |front| {
        forall i | 0 <= i < |front| ensures StrLt(front[i].github, users[n]) {
          PairedExact(init, f, front[i]);
          var k :| 0 <= k < n && init[k] == front[i].github;
          assert users[k] == init[k];
        }
      }
    }
  }

  /** The mapping list is in strictly ascending order of GitHub username, so each user has
      at most one mapping. */
  lemma UserMappingsInOrder(githubUsers: seq<string>, emails: seq<string>, threshold: real,
                            sim: (string, string) -> real)
    ensures var ms := UserMappings(githubUsers, emails, threshold, sim);
            forall i, j :: 0 <= i < j < |ms| ==> StrLt(ms[i].github, ms[j].github)
  {
    var users := SortStrings(Distinct(githubUsers));
    DistinctElems(githubUsers);
    SortStringsStrict(Distinct(githubUsers));
    var f := MappedEmail(emails, threshold, sim);
    PairedInOrder(users, f);
    assert UserMappings(githubUsers, emails, threshold, sim) == Paired(users, f);
  }

  /** The mapping list holds one mapping for each non-bot user that the search gives a
      non-empty email, and nothing else. */
  lemma UserMappingsExact(githubUsers: seq<string>, emails: seq<string>, threshold: real,
                          sim: (string, string) -> real, m: Mapping)
    ensures m in UserMappings(githubUsers, emails, threshold, sim) <==>
              m.github in githubUsers && !IsBot(m.github)
              && Truthy(BestJiraMatch(m.github, emails, threshold, sim).email)
              && m.jira == BestJiraMatch(m.github, emails, threshold, sim).email.value
  {
    var users := SortStrings(Distinct(githubUsers));
    DistinctElems(githubUsers);
    SortStringsStrict(Distinct(githubUsers));
    MappingsExact(users, emails, threshold, sim, m);
    assert m.github in users <==> m.github in Elems(users);
  }

  /** Every mapped Jira email is one of the candidates. */
  lemma UserMappingsFromCandidates(githubUsers: seq<string>, emails: seq<string>, threshold: real,
                                   sim: (string, string) -> real, m: Mapping)
    requires m in UserMappings(githubUsers, emails, threshold, sim)
    ensures m.jira in emails
  {
    UserMappingsExact(githubUsers, emails, threshold, sim, m);
    MatchedEmailIsCandidate(m.github, emails, threshold, sim);
  }

  /** A returned email is one of the candidates. */
  lemma MatchedEmailIsCandidate(username: string, emails: seq<string>, threshold: real,
                                sim: (string, string) -> real)
    ensures BestJiraMatch(username, emails, threshold, sim).email.Some? ==>
              BestJiraMatch(username, emails, threshold, sim).email.value in emails
  {
    BestJiraMatchCases(username, emails, threshold, sim);
  }

  /** The result depends only on the set of GitHub usernames, not on how it is listed. */
  lemma UserMappingsOfSameSet(a: seq<string>, b: seq<string>, emails: seq<string>, threshold: real,
                              sim: (string, string) -> real)
    requires Elems(a) == Elems(b)
    ensures UserMappings(a, emails, threshold, sim) == UserMappings(b, emails, threshold, sim)
  {
    DistinctElems(a);
    DistinctElems(b);
    SortStringsStrict(Distinct(a));
    SortStringsStrict(Distinct(b));
    StrictlySortedUnique(SortStrings(Distinct(a)), SortStrings(Distinct(b)));
  }
}
