/**
 * The subject each observation is published under:
 * `format!("time.obs.{}.{}", hostname, user)` in src/main.rs.
 * Neither part is escaped, so the inverse below only recovers both parts
 * when the hostname holds no '.'.
 */
module Topics {
  import opened Wrappers

  const TopicPrefix: string := "time.obs."

  /** The topic for `host` and `user`. */
  function Topic(host: string, user: string): string {
    TopicPrefix + host + "." + user
  }

  /** Index of the first occurrence of `c` in `s`, if any. */
  function IndexOf(s: string, c: char): (r: Option<nat>)
    ensures r.None? ==> c !in s
    ensures r.Some? ==> r.value < |s| && s[r.value] == c && c !in s[..r.value]
  {
    if s == [] then None
    else if s[0] == c then Some(0)
    else
      match IndexOf(s[1..], c)
      case None => None
      case Some(i) =>
        assert s[..i + 1] == [s[0]] + s[1..][..i];
        Some(i + 1)
  }

  /**
   * Reads a topic back as (host, user): the text after the prefix is split
   * at its first '.'.
   */
  function ParseTopic(t: string): Option<(string, string)> {
    if |t| < |TopicPrefix| || t[..|TopicPrefix|] != TopicPrefix then None
    else
      var rest := t[|TopicPrefix|..];
      match IndexOf(rest, '.')
      case None => None
      case Some(i) => Some((rest[..i], rest[i + 1..]))
  }

  /** A topic built from a dot-free hostname parses back into its host and user. */
  lemma ParseTopicOfTopic(host: string, user: string)
    requires '.' !in host
    ensures ParseTopic(Topic(host, user)) == Some((host, user))
  {
    var t := Topic(host, user);
    assert t[..|TopicPrefix|] == TopicPrefix;
    var rest := t[|TopicPrefix|..];
    assert rest == host + "." + user;
    assert rest[..|host|] == host;
    assert rest[|host|] == '.';
    match IndexOf(rest, '.')
    case None =>
      assert false;
    case Some(i) =>
      assert i == |host|;
      assert rest[i + 1..] == user;
  }

  /** With dot-free hostnames, distinct (host, user) pairs get distinct topics. */
  lemma TopicInjective(host: string, user: string, host': string, user': string)
    requires '.' !in host && '.' !in host'
    requires Topic(host, user) == Topic(host', user')
    ensures host == host' && user == user'
  {
    ParseTopicOfTopic(host, user);
    ParseTopicOfTopic(host', user');
  }

  /** Without that restriction, two different pairs can share a topic. */
  lemma TopicAmbiguousWithDottedHost()
    ensures Topic("h.a", "b") == Topic("h", "a.b")
  {
  }
}
