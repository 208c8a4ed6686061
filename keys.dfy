/** How a credential becomes the key of a wallet entry: the full key
    `protocol://username@host/`, and the username-discovery key
    `protocol://host/`, each segment present only when its field is. */
module KeyNames {
  import opened Credentials

  /** The full key: `protocol://`, then `username@`, then `host/`, a segment
      only for a non-empty field. */
  function ComposeKeyName(c: Credential): (key: string)
    ensures key == [] <==> c.protocol == [] && c.username == [] && c.host == []
  {
    var afterProtocol := if c.protocol != [] then c.protocol + "://" else [];
    var afterUsername := if c.username != [] then afterProtocol + c.username + "@" else afterProtocol;
    if c.host != [] then afterUsername + c.host + "/" else afterUsername
  }

  /** The discovery key: `protocol://` then `host/`. It is the full key of the
      same credential with the username left out, so it never depends on the
      username, and it equals the full key when the username is empty. */
  function ComposeKeyNameNoUsername(c: Credential): (key: string)
    ensures key == ComposeKeyName(c.(username := []))
  {
    var afterProtocol := if c.protocol != [] then c.protocol + "://" else [];
    if c.host != [] then afterProtocol + c.host + "/" else afterProtocol
  }

  /** A non-empty username lengthens the key by itself and its `@`, so the two
      entries `store` writes never share a key. */
  lemma FullKeyLength(c: Credential)
    ensures |ComposeKeyName(c)| == |ComposeKeyNameNoUsername(c)| + (if c.username == [] then 0 else |c.username| + 1)
    ensures c.username != [] <==> ComposeKeyName(c) != ComposeKeyNameNoUsername(c)
  {
  }

  /** The password takes no part in either key. */
  lemma KeysIgnorePassword(c: Credential, password: string)
    ensures ComposeKeyName(c.(password := password)) == ComposeKeyName(c)
    ensures ComposeKeyNameNoUsername(c.(password := password)) == ComposeKeyNameNoUsername(c)
  {
  }

  /** A worked example: https, alice, example.com. */
  lemma ExampleKeys()
    ensures ComposeKeyName(Credential("https", "example.com", "alice", "")) == "https://alice@example.com/"
    ensures ComposeKeyNameNoUsername(Credential("https", "example.com", "alice", "")) == "https://example.com/"
    ensures ComposeKeyName(Empty) == [] && ComposeKeyNameNoUsername(Empty) == []
  {
    ExampleFullKey();
    ExampleDiscoveryKey();
  }

  /** The full key of the worked example. */
  lemma ExampleFullKey()
    ensures ComposeKeyName(Credential("https", "example.com", "alice", "")) == "https://alice@example.com/"
  {
    assert ComposeKeyName(Credential("https", "example.com", "alice", "")) == "https://" + "alice" + "@" + "example.com" + "/";
  }

  /** The discovery key of the worked example. */
  lemma ExampleDiscoveryKey()
    ensures ComposeKeyNameNoUsername(Credential("https", "example.com", "alice", "")) == "https://example.com/"
  {
    assert ComposeKeyNameNoUsername(Credential("https", "example.com", "alice", "")) == "https://" + "example.com" + "/";
  }

  // Reading a key back

  /** The separator `://` starts at position `j` of `s`. */
  predicate SeparatorAt(s: string, j: int) {
    0 <= j && j + 3 <= |s| && s[j] == ':' && s[j + 1] == '/' && s[j + 2] == '/'
  }

  /** The first position of `://` in `s`, or -1. */
  function FindSeparator(s: string): (i: int)
    ensures -1 <= i
    ensures i >= 0 ==> SeparatorAt(s, i)
    ensures forall j :: 0 <= j && (i < 0 || j < i) ==> !SeparatorAt(s, j)
    decreases |s|
  {
    if |s| < 3 then -1
    else if SeparatorAt(s, 0) then 0
    else
      var j := FindSeparator(s[1..]);
      assert forall k :: 0 < k && SeparatorAt(s, k) ==> SeparatorAt(s[1..], k - 1);
      if j < 0 then -1 else j + 1
  }

  /** The last position of `ch` in `s`, or -1. */
  function LastIndexOf(s: string, ch: char): (i: int)
    ensures -1 <= i < |s|
    ensures i >= 0 ==> s[i] == ch && ch !in s[i + 1..]
    ensures i < 0 ==> ch !in s
    decreases |s|
  {
    if s == [] then -1
    else if s[|s| - 1] == ch then |s| - 1
    else
      var j := LastIndexOf(s[..|s| - 1], ch);
      assert s == s[..|s| - 1] + [s[|s| - 1]];
      j
  }

  /** Reads protocol, username and host back out of a full key: the protocol
      ends at the first `://`, the username at the last `@` after it, and the
      host is what remains without its closing `/`. */
  function SplitKeyName(key: string): (string, string, string) {
    var (protocol, rest) := SplitProtocol(key);
    var (username, host) := SplitUserHostText(rest);
    (protocol, username, host)
  }

  /** The text before the first `://` and the text after it; no protocol and
      the whole key when there is none. */
  function SplitProtocol(key: string): (string, string) {
    var i := FindSeparator(key);
    if i < 0 then ([], key) else (key[..i], key[i + 3..])
  }

  /** The text before the last `@` and, after it, the text without its
      closing `/`. */
  function SplitUserHostText(rest: string): (string, string) {
    var j := LastIndexOf(rest, '@');
    var username := if j < 0 then [] else rest[..j];
    var tail := if j < 0 then rest else rest[j + 1..];
    (username, if tail == [] then [] else tail[..|tail| - 1])
  }

  /** Fields whose text cannot be mistaken for a separator: no `/` in any of
      them, no `@` in the host (a port such as `:8080` and an `@` inside the
      username are fine). */
  predicate Delimitable(c: Credential) {
    '/' !in c.protocol && '/' !in c.username && '/' !in c.host && '@' !in c.host
  }

  /** One key segment: the field and its delimiter, or nothing for an empty field. */
  function Segment(field: string, delimiter: string): string {
    if field != [] then field + delimiter else []
  }

  /** The part of the key after `protocol://`. */
  function UserHostPart(c: Credential): string {
    Segment(c.username, "@") + Segment(c.host, "/")
  }

  /** The full key is the protocol, username and host segments in that order. */
  lemma {:induction false} KeyNameParts(c: Credential)
    ensures ComposeKeyName(c) == Segment(c.protocol, "://") + Segment(c.username, "@") + Segment(c.host, "/")
    ensures ComposeKeyName(c) == Segment(c.protocol, "://") + UserHostPart(c)
  {
    var p := Segment(c.protocol, "://");
    var u := Segment(c.username, "@");
    var h := Segment(c.host, "/");
    assert ComposeKeyName(c) == p + u + h;
    assert p + u + h == p + (u + h);
  }

  /** Without a protocol and with no `/` in username or host, the only `/` of
      the key is its last character, so it holds no `://`. */
  lemma {:induction false} NoSeparatorInUserHost(c: Credential)
    requires Delimitable(c)
    ensures FindSeparator(UserHostPart(c)) < 0
  {
    var s := UserHostPart(c);
    var u := Segment(c.username, "@");
    var h := Segment(c.host, "/");
    forall k | 0 <= k < |s| - 1 ensures s[k] != '/' {
      if k < |u| {
        if k < |c.username| { assert s[k] == c.username[k]; } else { assert s[k] == '@'; }
      } else {
        assert s[k] == c.host[k - |u|];
      }
    }
    forall j | 0 <= j ensures !SeparatorAt(s, j) {
    }
  }

  /** With the separator known to start at |prefix|, the first `://` of
      `prefix + "://" + rest` is there. */
  lemma {:induction false} SeparatorAfterProtocol(protocol: string, rest: string)
    requires '/' !in protocol
    ensures FindSeparator(protocol + "://" + rest) == |protocol|
  {
    var s := protocol + "://" + rest;
    assert SeparatorAt(s, |protocol|);
    forall j | 0 <= j < |protocol| ensures !SeparatorAt(s, j) {
      if j + 1 < |protocol| {
        assert s[j + 1] == protocol[j + 1];
      } else {
        assert s[j + 1] == ':';
      }
    }
    var i := FindSeparator(s);
    assert i >= 0 && !(i < |protocol|) && !(|protocol| < i);
  }

  /** The username and host are read back from the part after the protocol. */
  lemma {:induction false} SplitUserHost(c: Credential)
    requires Delimitable(c)
    ensures SplitUserHostText(UserHostPart(c)) == (c.username, c.host)
  {
    var rest := UserHostPart(c);
    var h := Segment(c.host, "/");
    assert '@' !in h;
    if c.username != [] {
      assert rest == c.username + ['@'] + h;
      LastIndexOfAfter(c.username, '@', h);
    } else {
      assert rest == h;
    }
  }

  /** The protocol and the part after it are read back from a full key. */
  lemma {:induction false} SplitProtocolOf(c: Credential)
    requires Delimitable(c)
    ensures SplitProtocol(ComposeKeyName(c)) == (c.protocol, UserHostPart(c))
  {
    KeyNameParts(c);
    var key := ComposeKeyName(c);
    var rest := UserHostPart(c);
    if c.protocol != [] {
      SeparatorAfterProtocol(c.protocol, rest);
      assert key[..|c.protocol|] == c.protocol;
      assert key[|c.protocol| + 3..] == rest;
    } else {
      assert key == rest;
      NoSeparatorInUserHost(c);
    }
  }

  /** The last `ch` of `a + [ch] + b` is the one after `a` when `b` holds none. */
  lemma {:induction false} LastIndexOfAfter(a: string, ch: char, b: string)
    requires ch !in b
    ensures LastIndexOf(a + [ch] + b, ch) == |a|
    ensures (a + [ch] + b)[..|a|] == a && (a + [ch] + b)[|a| + 1..] == b
    decreases |b|
  {
    var s := a + [ch] + b;
    if b != [] {
      assert s[..|s| - 1] == a + [ch] + b[..|b| - 1];
      LastIndexOfAfter(a, ch, b[..|b| - 1]);
    }
  }

  /** Reading a full key back yields the protocol, username and host it was
      built from, when no field holds a separator. */
  lemma {:induction false} SplitComposeKeyName(c: Credential)
    requires Delimitable(c)
    ensures SplitKeyName(ComposeKeyName(c)) == (c.protocol, c.username, c.host)
  {
    SplitProtocolOf(c);
    SplitUserHost(c);
  }

  /** Distinct credentials of delimitable fields get distinct full keys. */
  lemma KeyNameInjective(c: Credential, d: Credential)
    requires Delimitable(c) && Delimitable(d)
    requires ComposeKeyName(c) == ComposeKeyName(d)
    ensures c.protocol == d.protocol && c.username == d.username && c.host == d.host
  {
    SplitComposeKeyName(c);
    SplitComposeKeyName(d);
  }

  /** A full key with a username is never the discovery key of any credential
      of delimitable fields, so `store` for one account cannot overwrite the
      username entry of another. */
  lemma FullKeyIsNoDiscoveryKey(c: Credential, d: Credential)
    requires Delimitable(c) && Delimitable(d) && c.username != []
    ensures ComposeKeyName(c) != ComposeKeyNameNoUsername(d)
  {
    SplitComposeKeyName(c);
    SplitComposeKeyName(d.(username := []));
  }

  /** Without the restriction two credentials can share a key: the protocol
      `x` alone and the host `x:/` alone both give `x://`. */
  lemma KeyNameCollision()
    ensures ComposeKeyName(Credential("x", "", "", "")) == ComposeKeyName(Credential("", "x:/", "", ""))
  {
  }
}
