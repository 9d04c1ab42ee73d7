/** The lookup service over the user-mapping CSV: the rows are read into mappings behind a
    cache keyed by the file's modification time, and either side of a mapping is looked up
    from the other, ignoring case, first match winning. The file is an input: absent, or
    present with its mtime and rows. */
module UserMappingService {
  import opened Base
  import opened UserMapper

  /** One row of the mapping CSV; a column the file lacks is None. */
  datatype MappingRow = MappingRow(github: Option<string>, jira: Option<string>)

  datatype MappingFile = MappingFile(mtime: int, rows: seq<MappingRow>)

  /** A row as a mapping, a missing column read as "". */
  function MappingOf(row: MappingRow): Mapping {
    Mapping(OrEmpty(row.github), OrEmpty(row.jira))
  }

  function MappingsIn(rows: seq<MappingRow>): (r: seq<Mapping>)
    ensures |r| == |rows|
    ensures forall i :: 0 <= i < |rows| ==> r[i] == MappingOf(rows[i])
  {
    seq(|rows|, i requires 0 <= i < |rows| => MappingOf(rows[i]))
  }

  /** The reading loop: one mapping per row, in file order. */
  method ReadMappings(rows: seq<MappingRow>) returns (mappings: seq<Mapping>)
    ensures mappings == MappingsIn(rows)
  {
    mappings := [];
    for i := 0 to |rows|
      invariant mappings == MappingsIn(rows[..i])
    {
      mappings := mappings + [Mapping(OrEmpty(rows[i].github), OrEmpty(rows[i].jira))];
    }
    assert rows[..|rows|] == rows;
  }

  /** Rows with both columns are read back as the mappings they were written from. */
  lemma ReadWrittenMappings(ms: seq<Mapping>)
    ensures MappingsIn(seq(|ms|, i requires 0 <= i < |ms| => MappingRow(Some(ms[i].github), Some(ms[i].jira)))) == ms
  {
  }

  function GithubOf(m: Mapping): string { m.github }

  function JiraOf(m: Mapping): string { m.jira }

  /** The `value` of the first mapping whose `key` equals `x` ignoring case. */
  function FirstMatch(ms: seq<Mapping>, x: string, key: Mapping -> string, value: Mapping -> string): Option<string> {
    if ms == [] then None
    else if SameIgnoringCase(key(ms[0]), x) then Some(value(ms[0]))
    else FirstMatch(ms[1..], x, key, value)
  }

  /** The lookup, both ways: a result exactly when some mapping matches, and then the value
      of the first that does. */
  lemma {:induction false} FirstMatchExact(ms: seq<Mapping>, x: string, key: Mapping -> string, value: Mapping -> string)
    ensures FirstMatch(ms, x, key, value).None? <==> forall i :: 0 <= i < |ms| ==> !SameIgnoringCase(key(ms[i]), x)
    ensures FirstMatch(ms, x, key, value).Some? ==>
              exists i :: 0 <= i < |ms| && SameIgnoringCase(key(ms[i]), x)
                && FirstMatch(ms, x, key, value) == Some(value(ms[i]))
                && forall j :: 0 <= j < i ==> !SameIgnoringCase(key(ms[j]), x)
  {
    if ms != [] && !SameIgnoringCase(key(ms[0]), x) {
      FirstMatchExact(ms[1..], x, key, value);
      if FirstMatch(ms[1..], x, key, value).Some? {
        var i :| 0 <= i < |ms[1..]| && SameIgnoringCase(key(ms[1..][i]), x)
                 && FirstMatch(ms[1..], x, key, value) == Some(value(ms[1..][i]))
                 && forall j :: 0 <= j < i ==> !SameIgnoringCase(key(ms[1..][j]), x);
        assert ms[i + 1] == ms[1..][i];
        forall j | 0 <= j < i + 1 ensures !SameIgnoringCase(key(ms[j]), x) {
          if j > 0 {
            assert ms[j] == ms[1..][j - 1];
          }
        }
      }
      forall i | 0 <= i < |ms[1..]| ensures ms[1..][i] == ms[i + 1] {
      }
    }
  }

  /** When no two mappings share a key ignoring case, looking up a mapping's key gives
      that mapping's value. */
  lemma FirstMatchOfListed(ms: seq<Mapping>, i: nat, key: Mapping -> string, value: Mapping -> string)
    requires i < |ms|
    requires forall j, k :: 0 <= j < k < |ms| ==> !SameIgnoringCase(key(ms[j]), key(ms[k]))
    ensures FirstMatch(ms, key(ms[i]), key, value) == Some(value(ms[i]))
  {
    FirstMatchExact(ms, key(ms[i]), key, value);
    var found := FirstMatch(ms, key(ms[i]), key, value);
    var k :| 0 <= k < |ms| && SameIgnoringCase(key(ms[k]), key(ms[i]))
             && found == Some(value(ms[k]))
             && forall j :: 0 <= j < k ==> !SameIgnoringCase(key(ms[j]), key(ms[i]));
    assert k == i;
  }

  /** The lookup loop, returning from the first match. */
  method Search(ms: seq<Mapping>, x: string, key: Mapping -> string, value: Mapping -> string)
    returns (r: Option<string>)
    ensures r == FirstMatch(ms, x, key, value)
  {
    var i := 0;
    while i < |ms|
      invariant i <= |ms|
      invariant FirstMatch(ms, x, key, value) == FirstMatch(ms[i..], x, key, value)
    {
      if Lower(key(ms[i])) == Lower(x) {
        return Some(value(ms[i]));
      }
      assert ms[i..][1..] == ms[i + 1..];
      i := i + 1;
    }
    return None;
  }

  /** The mappings a call returns, given the cache as it was and the file. */
  function Served(cache: Option<seq<Mapping>>, cacheMtime: Option<int>, file: Option<MappingFile>): seq<Mapping> {
    if file.None? then []
    else if cache.Some? && cacheMtime == Some(file.value.mtime) then cache.value
    else MappingsIn(file.value.rows)
  }

  /** The module-level cache: the mappings last read and the mtime they were read at. */
  class MappingCache {
    var cache: Option<seq<Mapping>>
    var cacheMtime: Option<int>

    constructor()
      ensures cache == None && cacheMtime == None
    {
      cache := None;
      cacheMtime := None;
    }

    /** `get_user_mappings`: no file gives no mappings and leaves the cache alone; a cache
        filled at the file's current mtime is returned as it is; otherwise the rows are
        read and cached with that mtime. */
    method GetUserMappings(file: Option<MappingFile>) returns (mappings: seq<Mapping>)
      modifies this
      ensures mappings == Served(old(cache), old(cacheMtime), file)
      ensures file.None? ==> mappings == [] && cache == old(cache) && cacheMtime == old(cacheMtime)
      ensures file.Some? && old(cache).Some? && old(cacheMtime) == Some(file.value.mtime) ==>
                mappings == old(cache).value && cache == old(cache) && cacheMtime == old(cacheMtime)
      ensures file.Some? && !(old(cache).Some? && old(cacheMtime) == Some(file.value.mtime)) ==>
                mappings == MappingsIn(file.value.rows)
                && cache == Some(mappings) && cacheMtime == Some(file.value.mtime)
    {
      if file.None? {
        return [];
      }
      var currentMtime := file.value.mtime;
      if cache.Some? && cacheMtime == Some(currentMtime) {
        return cache.value;
      }
      mappings := ReadMappings(file.value.rows);
      cache := Some(mappings);
      cacheMtime := Some(currentMtime);
    }

    /** `get_jira_email_for_github_user`: the Jira email of the first mapping whose GitHub
        username matches ignoring case, among the mappings the call serves. */
    method GetJiraEmailForGithubUser(file: Option<MappingFile>, githubUsername: string)
      returns (email: Option<string>)
      modifies this
      ensures email == FirstMatch(Served(old(cache), old(cacheMtime), file), githubUsername, GithubOf, JiraOf)
      ensures file.Some? ==> cache == Some(Served(old(cache), old(cacheMtime), file)) && cacheMtime == Some(file.value.mtime)
      ensures file.None? ==> email == None && cache == old(cache) && cacheMtime == old(cacheMtime)
    {
      var mappings := GetUserMappings(file);
      email := Search(mappings, githubUsername, GithubOf, JiraOf);
    }

    /** `get_github_user_for_jira_email`: the symmetric lookup on the Jira side. */
    method GetGithubUserForJiraEmail(file: Option<MappingFile>, jiraEmail: string)
      returns (username: Option<string>)
      modifies this
      ensures username == FirstMatch(Served(old(cache), old(cacheMtime), file), jiraEmail, JiraOf, GithubOf)
      ensures file.Some? ==> cache == Some(Served(old(cache), old(cacheMtime), file)) && cacheMtime == Some(file.value.mtime)
      ensures file.None? ==> username == None && cache == old(cache) && cacheMtime == old(cacheMtime)
    {
      var mappings := GetUserMappings(file);
      username := Search(mappings, jiraEmail, JiraOf, GithubOf);
    }

    /** `clear_cache`: both fields emptied, so the next call reads the file. */
    method ClearCache()
      modifies this
      ensures cache == None && cacheMtime == None
    {
      cache := None;
      cacheMtime := None;
    }
  }

  /** After the cache is cleared, a call reads the file's rows whatever was cached. */
  method ReloadAfterClear(c: MappingCache, file: MappingFile) returns (mappings: seq<Mapping>)
    modifies c
    ensures mappings == MappingsIn(file.rows)
    ensures c.cache == Some(mappings) && c.cacheMtime == Some(file.mtime)
  {
    c.ClearCache();
    mappings := c.GetUserMappings(Some(file));
  }

  /** Two calls on an unchanged file serve the same mappings; the second from the cache. */
  method ServeTwice(c: MappingCache, file: MappingFile) returns (first: seq<Mapping>, second: seq<Mapping>)
    modifies c
    ensures second == first
    ensures first == Served(old(c.cache), old(c.cacheMtime), Some(file))
  {
    first := c.GetUserMappings(Some(file));
    second := c.GetUserMappings(Some(file));
  }

  /** Two email lookups for the same user on an unchanged file give the same answer. */
  method LookupTwice(c: MappingCache, file: MappingFile, githubUsername: string)
    returns (first: Option<string>, second: Option<string>)
    modifies c
    ensures second == first
    ensures first == FirstMatch(Served(old(c.cache), old(c.cacheMtime), Some(file)), githubUsername, GithubOf, JiraOf)
  {
    first := c.GetJiraEmailForGithubUser(Some(file), githubUsername);
    second := c.GetJiraEmailForGithubUser(Some(file), githubUsername);
  }
}
