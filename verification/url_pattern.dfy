/** The URL check of `download_video`: a `re.match` against
    `^(https?://)?(www\.)?(youtube\.com|youtu\.be)/.+$`.
    `MatchesPattern` states what the pattern accepts as a choice of its
    optional groups and alternatives; `IsVideoUrl` decides it by stripping
    prefixes left to right.  `IsVideoUrlCorrect` shows the two agree. */
module UrlPattern {
  import Paths

  /** The choices for `(https?://)?`. */
  const Schemes: set<string> := {"", "http://", "https://"}

  /** The choices for `(www\.)?`. */
  const WwwPrefixes: set<string> := {"", "www."}

  /** The choices for `(youtube\.com|youtu\.be)`. */
  const Domains: set<string> := {"youtube.com", "youtu.be"}

  /** What `.+$` accepts after the slash.  `.` matches anything but a newline,
      and `$` matches at the end or just before a newline that ends the string:
      one or more non-newline characters, optionally followed by one final newline. */
  predicate IsPathTail(t: string) {
    var body := WithoutFinalNewline(t);
    |body| >= 1 && forall i :: 0 <= i < |body| ==> body[i] != '\n'
  }

  function WithoutFinalNewline(t: string): string {
    if |t| > 0 && t[|t| - 1] == '\n' then t[..|t| - 1] else t
  }

  /** `url` begins with `prefix` and the rest is a path tail. */
  predicate HasTailAfter(url: string, prefix: string) {
    Paths.StartsWith(url, prefix) && IsPathTail(url[|prefix|..])
  }

  /** The language of the pattern: some choice of scheme, `www.` and domain,
      then a slash and a path tail. */
  ghost predicate MatchesPattern(url: string) {
    exists scheme, www, domain ::
      scheme in Schemes && www in WwwPrefixes && domain in Domains &&
      HasTailAfter(url, scheme + www + domain + "/")
  }

  // ---------------------------------------------------------------------------
  // The direct matcher

  function DropPrefix(s: string, prefix: string): string {
    if Paths.StartsWith(s, prefix) then s[|prefix|..] else s
  }

  function AfterScheme(url: string): string {
    if Paths.StartsWith(url, "https://") then url[8..]
    else if Paths.StartsWith(url, "http://") then url[7..]
    else url
  }

  function MatchDomain(u: string): bool {
    if Paths.StartsWith(u, "youtube.com/") then IsPathTail(u[12..])
    else if Paths.StartsWith(u, "youtu.be/") then IsPathTail(u[9..])
    else false
  }

  /** The check by one left-to-right pass: drop a scheme if present, then `www.`
      if present, then require a domain, a slash and a path tail. */
  function IsVideoUrl(url: string): bool {
    MatchDomain(DropPrefix(AfterScheme(url), "www."))
  }

  // ---------------------------------------------------------------------------
  // The pattern read one group at a time

  ghost predicate DomainPart(u: string) {
    exists domain :: domain in Domains && HasTailAfter(u, domain + "/")
  }

  ghost predicate HostPart(t: string) {
    exists www :: www in WwwPrefixes && Paths.StartsWith(t, www) && DomainPart(t[|www|..])
  }

  ghost predicate SchemePart(url: string) {
    exists scheme :: scheme in Schemes && Paths.StartsWith(url, scheme) && HostPart(url[|scheme|..])
  }

  lemma PrefixSplit(s: string, a: string, b: string)
    ensures Paths.StartsWith(s, a + b) <==> Paths.StartsWith(s, a) && Paths.StartsWith(s[|a|..], b)
    ensures Paths.StartsWith(s, a + b) ==> s[|a + b|..] == s[|a|..][|b|..]
  {
    if Paths.StartsWith(s, a + b) {
      assert s[..|a|] == (a + b)[..|a|] == a;
      assert s[|a|..][..|b|] == s[|a|..|a| + |b|] == (a + b)[|a|..] == b;
    }
    if Paths.StartsWith(s, a) && Paths.StartsWith(s[|a|..], b) {
      assert s[..|a + b|] == s[..|a|] + s[|a|..][..|b|];
    }
  }

  /** Reading the prefix `scheme + www + domain + "/"` one group at a time. */
  lemma HasTailAfterGroups(url: string, scheme: string, www: string, domain: string)
    ensures HasTailAfter(url, scheme + www + domain + "/") <==>
      Paths.StartsWith(url, scheme) && Paths.StartsWith(url[|scheme|..], www) &&
      HasTailAfter(url[|scheme|..][|www|..], domain + "/")
  {
    var rest := www + (domain + "/");
    assert scheme + www + domain + "/" == scheme + rest;
    PrefixSplit(url, scheme, rest);
    if Paths.StartsWith(url, scheme) {
      PrefixSplit(url[|scheme|..], www, domain + "/");
    }
  }

  lemma MatchesGroupwise(url: string)
    ensures MatchesPattern(url) <==> SchemePart(url)
  {
    if MatchesPattern(url) {
      var scheme, www, domain :| scheme in Schemes && www in WwwPrefixes && domain in Domains &&
        HasTailAfter(url, scheme + www + domain + "/");
      HasTailAfterGroups(url, scheme, www, domain);
      assert DomainPart(url[|scheme|..][|www|..]);
      assert HostPart(url[|scheme|..]);
    }
    if SchemePart(url) {
      var scheme :| scheme in Schemes && Paths.StartsWith(url, scheme) && HostPart(url[|scheme|..]);
      var www :| www in WwwPrefixes && Paths.StartsWith(url[|scheme|..], www) && DomainPart(url[|scheme|..][|www|..]);
      var domain :| domain in Domains && HasTailAfter(url[|scheme|..][|www|..], domain + "/");
      HasTailAfterGroups(url, scheme, www, domain);
    }
  }

  /** The two domains are told apart by the character at index 5. */
  lemma DomainGroup(u: string)
    ensures DomainPart(u) <==> MatchDomain(u)
    ensures DomainPart(u) ==> |u| > 0 && u[0] == 'y'
  {
    var long, short := "youtube.com", "youtu.be";
    assert long + "/" == "youtube.com/" && short + "/" == "youtu.be/";
    if Paths.StartsWith(u, "youtube.com/") {
      assert u[5] == 'b';
      assert !Paths.StartsWith(u, "youtu.be/") by { assert "youtu.be/"[5] == '.'; }
    }
    if Paths.StartsWith(u, "youtu.be/") {
      assert u[0] == 'y';
    }
    if MatchDomain(u) {
      if Paths.StartsWith(u, "youtube.com/") {
        assert HasTailAfter(u, long + "/");
      } else {
        assert HasTailAfter(u, short + "/");
      }
    }
    if DomainPart(u) {
      var d :| d in Domains && HasTailAfter(u, d + "/");
      assert u[0] == (d + "/")[0] == 'y';
    }
  }

  /** `www.` begins with `w` and every domain with `y`, so stripping `www.`
      whenever it is present loses no match. */
  lemma HostGroup(t: string)
    ensures HostPart(t) <==> MatchDomain(DropPrefix(t, "www."))
    ensures HostPart(t) ==> |t| > 0 && (t[0] == 'w' || t[0] == 'y')
  {
    DomainGroup(t);
    var none, www := "", "www.";
    assert t[|none|..] == t;
    if Paths.StartsWith(t, "www.") {
      DomainGroup(t[4..]);
      assert t[0] == 'w';
      if MatchDomain(t[4..]) {
        assert Paths.StartsWith(t, www) && DomainPart(t[|www|..]);
      }
    } else {
      if DomainPart(t) {
        assert Paths.StartsWith(t, none);
      }
    }
    if HostPart(t) {
      var w :| w in WwwPrefixes && Paths.StartsWith(t, w) && DomainPart(t[|w|..]);
      DomainGroup(t[|w|..]);
      if w == "www." { assert t[0] == 'w'; }
    }
  }

  /** Both schemes begin with `h`, which no host part begins with, and they part
      at index 4, so stripping the scheme that is present loses no match. */
  lemma SchemeGroup(url: string)
    ensures SchemePart(url) <==> HostPart(AfterScheme(url))
  {
    if Paths.StartsWith(url, "https://") {
      SchemeHttps(url);
    } else if Paths.StartsWith(url, "http://") {
      SchemeHttp(url);
    } else {
      SchemeNone(url);
    }
  }

  /** A URL that starts with a scheme starts with `h`, so it has no host part
      without the scheme. */
  lemma NoHostAtScheme(url: string)
    requires |url| > 0 && url[0] == 'h'
    ensures !HostPart(url)
  {
    HostGroup(url);
  }

  lemma SchemeHttps(url: string)
    requires Paths.StartsWith(url, "https://")
    ensures SchemePart(url) <==> HostPart(url[8..])
  {
    var https := "https://";
    assert url[0] == 'h';
    NoHostAtScheme(url);
    assert !Paths.StartsWith(url, "http://") by { assert url[4] == 's'; }
    if HostPart(url[8..]) {
      assert Paths.StartsWith(url, https) && HostPart(url[|https|..]);
    }
  }

  lemma SchemeHttp(url: string)
    requires Paths.StartsWith(url, "http://") && !Paths.StartsWith(url, "https://")
    ensures SchemePart(url) <==> HostPart(url[7..])
  {
    var http := "http://";
    assert url[0] == 'h';
    NoHostAtScheme(url);
    if HostPart(url[7..]) {
      assert Paths.StartsWith(url, http) && HostPart(url[|http|..]);
    }
  }

  lemma SchemeNone(url: string)
    requires !Paths.StartsWith(url, "http://") && !Paths.StartsWith(url, "https://")
    ensures SchemePart(url) <==> HostPart(url)
  {
    var none := "";
    assert url[|none|..] == url;
    if HostPart(url) {
      assert Paths.StartsWith(url, none);
    }
  }

  /** The direct matcher accepts exactly the strings the pattern matches. */
  lemma IsVideoUrlCorrect(url: string)
    ensures IsVideoUrl(url) <==> MatchesPattern(url)
  {
    MatchesGroupwise(url);
    SchemeGroup(url);
    HostGroup(AfterScheme(url));
  }

  /** `$` lets one newline end the string, but not one in the middle; the tail
      after the slash must not be empty. */
  lemma PathTailExamples()
    ensures IsPathTail("x") && IsPathTail("x\n")
    ensures !IsPathTail("") && !IsPathTail("\n") && !IsPathTail("x\ny")
  {
    assert "x\n"[..1] == "x";
    var mid := "x\ny";
    assert mid[2] == 'y';
    assert WithoutFinalNewline(mid)[1] == '\n';
  }
}
