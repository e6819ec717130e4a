/** Folding the spellings of a git remote to one key, `host/path` in lower case. */
module GitRemote {
  import opened Options
  import opened Text

  // ----- the stages -----

  /** Where `c` first occurs; the length if it does not. */
  function Find(s: string, c: char): (i: nat)
    ensures i <= |s|
  {
    if s == "" || s[0] == c then 0 else Find(s[1..], c) + 1
  }

  /** What follows the first "://". */
  function AfterScheme(s: string): Option<string>
    decreases |s|
  {
    if |s| < 3 then None
    else if s[..3] == "://" then Some(s[3..])
    else AfterScheme(s[1..])
  }

  function DropScheme(s: string): string { match AfterScheme(s) case Some(r) => r case None => s }

  function DropUser(s: string): string {
    var at := Find(s, '@');
    if at < Find(s, '/') then s[at + 1..] else s
  }

  predicate Digit(c: char) { '0' <= c <= '9' }

  predicate AllDigits(s: string) { forall i :: 0 <= i < |s| ==> Digit(s[i]) }

  /** The text after a colon starts with a port. */
  predicate IsPort(after: string) {
    after != "" && Digit(after[0]) && AllDigits(after[..Find(after, '/')])
  }

  function ScpColon(s: string): string {
    var colon := Find(s, ':');
    if colon < Find(s, '/') && colon < |s| && !IsPort(s[colon + 1..]) then s[colon := '/'] else s
  }

  function DropGit(s: string): string { match StripSuffix(s, ".git") case Some(r) => r case None => s }

  function TrimSlashes(s: string): string { TrimEndChar(TrimStartChar(s, '/'), '/') }

  function Normalized(remote: string): string {
    TrimSlashes(DropGit(ScpColon(DropUser(DropScheme(Lower(Trim(remote)))))))
  }

  method NormalizeGitRemote(remote: string) returns (s: string)
    ensures s == Normalized(remote)
  {
    hide Find, AfterScheme, Lower, Trim, TrimSlashes, IsPort, StripSuffix;
    s := Lower(Trim(remote));
    var rest := AfterScheme(s);
    if rest.Some? { s := rest.value; }
    ghost var bare := DropScheme(Lower(Trim(remote)));
    assert s == bare;
    hide DropScheme;
    var at := Find(s, '@');
    if at < Find(s, '/') { s := s[at + 1..]; }
    ghost var authority := DropUser(bare);
    assert s == authority;
    hide DropUser;
    var colon := Find(s, ':');
    if colon < Find(s, '/') && colon < |s| {
      if !IsPort(s[colon + 1..]) { s := s[colon := '/']; }
    }
    ghost var slashed := ScpColon(authority);
    assert s == slashed;
    hide ScpColon;
    var stem := StripSuffix(s, ".git");
    if stem.Some? { s := stem.value; }
    s := TrimSlashes(s);
  }

  // ----- spellings -----

  /** How a clone URL may end. */
  predicate Ending(e: string) { e == "" || e == "/" || e == ".git" }

  /** Nothing, or a user with its '@'. */
  predicate Userinfo(u: string) { u == "" || (u[|u| - 1] == '@' && '@' !in u[..|u| - 1] && '/' !in u) }

  predicate HostName(h: string) { h != "" && '/' !in h && '@' !in h && ':' !in h }

  /** A host, perhaps with a port. */
  predicate Host(h: string) {
    var colon := Find(h, ':');
    && h != "" && '/' !in h && '@' !in h && colon > 0
    && (colon < |h| ==> colon + 1 < |h| && AllDigits(h[colon + 1..]))
  }

  predicate Path(p: string) { p != "" && p[0] != '/' && p[|p| - 1] != '/' && StripSuffix(p, ".git").None? }

  lemma {:induction false} FindAt(a: string, c: char, b: string)
    requires c !in a
    ensures Find(a + b, c) == |a| + Find(b, c)
    decreases |a|
  {
    if a == "" {
      assert a + b == b;
    } else {
      FindAt(a[1..], c, b);
      assert (a + b)[1..] == a[1..] + b;
    }
  }

  /** Decimal digits, at least one, and then a slash or the end. */
  predicate DigitsUpTo(after: string, n: nat) {
    && 0 < n <= |after| && (forall i :: 0 <= i < n ==> after[i] in "0123456789")
    && (n == |after| || after[n] == '/')
  }

  /** A colon is before a port exactly when that follows it. */
  lemma PortIff(after: string)
    ensures IsPort(after) <==> exists n: nat :: DigitsUpTo(after, n)
  {
    FindIs(after, '/');
    var n := Find(after, '/');
    forall c ensures Digit(c) <==> c in "0123456789" { DigitIff(c); }
    hide Digit, Find;
    assert forall i :: 0 <= i < n ==> after[i] == after[..n][i] && after[i] != '/';
    if IsPort(after) { assert DigitsUpTo(after, n); }
    if exists m: nat :: DigitsUpTo(after, m) {
      var m: nat :| DigitsUpTo(after, m);
      assert n == m;
    }
  }

  lemma DigitIff(c: char)
    ensures Digit(c) <==> c in "0123456789"
  {
  }

  // ----- stage by stage -----

  lemma {:induction false} SchemeDropped(scheme: string, rest: string)
    requires ':' !in scheme
    ensures AfterScheme(scheme + "://" + rest) == Some(rest)
    decreases |scheme|
  {
    var s := scheme + "://" + rest;
    if scheme == "" {
      assert s[..3] == "://" && s[3..] == rest;
    } else {
      SchemeDropped(scheme[1..], rest);
      assert s[1..] == scheme[1..] + "://" + rest;
      assert s[0] == scheme[0] != ':';
    }
  }

  lemma UserDropped(u: string, rest: string)
    requires Userinfo(u) && u != ""
    ensures DropUser(u + rest) == rest
  {
    var v := u[..|u| - 1];
    assert u == v + "@" && u + rest == v + ("@" + rest);
    FindAt(v, '@', "@" + rest);
    FindAt(u, '/', rest);
    assert Find("@" + rest, '@') == 0;
  }

  lemma NoUser(h: string, tail: string)
    requires '@' !in h && '/' !in h && Find(tail, '/') <= Find(tail, '@')
    ensures DropUser(h + tail) == h + tail
  {
    FindAt(h, '@', tail);
    FindAt(h, '/', tail);
  }

  lemma {:induction false} FindIs(s: string, c: char)
    ensures c !in s[..Find(s, c)] && (Find(s, c) < |s| ==> s[Find(s, c)] == c)
    decreases |s|
  {
    if s != "" && s[0] != c {
      FindIs(s[1..], c);
      var i := Find(s[1..], c);
      assert s[..i + 1] == [s[0]] + s[1..][..i];
    }
  }

  lemma PortStays(h: string, tail: string)
    requires Host(h) && tail != "" && tail[0] == '/'
    ensures ScpColon(h + tail) == h + tail
  {
    var colon := Find(h, ':');
    FindIs(h, ':');
    FindAt(h, '/', tail);
    assert Find(tail, '/') == 0;
    var name, port := h[..colon], h[colon..];
    assert h == name + port && h + tail == name + (port + tail);
    FindAt(name, ':', port + tail);
    if colon < |h| {
      assert port[0] == ':' && Find(port + tail, ':') == 0;
      var after := (h + tail)[colon + 1..];
      assert after == h[colon + 1..] + tail;
      FindAt(h[colon + 1..], '/', tail);
      assert after[..Find(after, '/')] == h[colon + 1..];
      assert after[0] == h[colon + 1..][0];
    } else {
      assert port == "" && port + tail == tail;
    }
  }

  function FirstSegment(p: string): string { p[..Find(p, '/')] }

  lemma NotAPort(p: string, e: string)
    requires !AllDigits(FirstSegment(p))
    ensures !IsPort(p + e)
  {
    var seg := FirstSegment(p);
    FindIs(p, '/');
    assert p + e == seg + (p[|seg|..] + e);
    FindAt(seg, '/', p[|seg|..] + e);
    var i :| 0 <= i < |seg| && !Digit(seg[i]);
    assert (p + e)[..Find(p + e, '/')][i] == seg[i];
  }

  lemma ColonReplaced(h: string, p: string, e: string)
    requires HostName(h) && !AllDigits(FirstSegment(p))
    ensures ScpColon(h + ":" + (p + e)) == h + "/" + (p + e)
  {
    var s := h + ":" + (p + e);
    assert s == h + (":" + (p + e));
    FindAt(h, ':', ":" + (p + e));
    FindAt(h, '/', ":" + (p + e));
    assert Find(":" + (p + e), ':') == 0 && Find(":" + (p + e), '/') > 0;
    assert s[|h| + 1..] == p + e;
    NotAPort(p, e);
    assert s[|h| := '/'] == h + "/" + (p + e);
  }

  lemma EndingDropped(h: string, p: string, e: string)
    requires h != "" && h[0] != '/' && Path(p) && Ending(e)
    ensures TrimSlashes(DropGit(h + "/" + (p + e))) == h + "/" + p
  {
    hide *;
    var key := h + "/" + p;
    assert h + "/" + (p + e) == key + e;
    KeyEnds(h, p, e);
    SlashesTrimmed(key);
    if e == ".git" {
      GitDropped(key);
    } else if e == "/" {
      SlashIsNotGit(key);
    } else {
      assert key + e == key;
      NotGit(h, p);
    }
  }

  lemma KeyEnds(h: string, p: string, e: string)
    requires h != "" && Path(p) && Ending(e)
    ensures (h + "/" + p)[0] == h[0] && (h + "/" + p)[|h + "/" + p| - 1] != '/'
    ensures e == ".git" || e == "/" || e == ""
  {
    hide StripSuffix;
  }

  lemma GitDropped(key: string)
    ensures DropGit(key + ".git") == key
  {
    var s := key + ".git";
    assert s[|s| - 4..] == ".git" && s[..|s| - 4] == key;
  }

  lemma SlashIsNotGit(key: string)
    ensures DropGit(key + "/") == key + "/"
  {
    var s := key + "/";
    if |s| >= 4 { assert s[|s| - 4..][3] == '/' && ".git"[3] == 't'; }
  }

  lemma SlashesTrimmed(key: string)
    requires key != "" && key[0] != '/' && key[|key| - 1] != '/'
    ensures TrimSlashes(key) == key && TrimSlashes(key + "/") == key
  {
    var s := key + "/";
    assert s[0] == key[0] && s[|s| - 1] == '/' && s[..|s| - 1] == key;
  }

  lemma NotGit(h: string, p: string)
    requires Path(p)
    ensures DropGit(h + "/" + p) == h + "/" + p
  {
    var key := h + "/" + p;
    if |p| >= 4 {
      assert key[|key| - 4..] == p[|p| - 4..];
    } else if |key| >= 4 {
      assert key[|h|] == '/' && key[|key| - 4..][|h| - (|key| - 4)] == '/';
    }
  }

  // ----- the theorem -----

  datatype Form = Url(scheme: string) | Bare | Scp

  /** A spelling of `host/path`, already in lower case. */
  function Spelled(f: Form, u: string, h: string, p: string, e: string): string {
    match f
    case Url(scheme) => scheme + "://" + (u + (h + ("/" + (p + e))))
    case Bare => u + (h + ("/" + (p + e)))
    case Scp => u + (h + (":" + (p + e)))
  }

  /** Free of separator clashes: nothing that reads as a scheme where there is none, and in the
      scp form no port, no '@' that would be taken for a user's, and a first path segment that
      is not all digits. */
  predicate NoClash(f: Form, u: string, h: string, p: string, e: string) {
    match f
    case Url(scheme) => ':' !in scheme && Host(h)
    case Bare => AfterScheme(Spelled(f, u, h, p, e)).None? && Host(h)
    case Scp =>
      && AfterScheme(Spelled(f, u, h, p, e)).None? && HostName(h) && !AllDigits(FirstSegment(p))
      && (u == "" ==> Find(":" + (p + e), '/') <= Find(":" + (p + e), '@'))
  }

  lemma SchemeStage(f: Form, u: string, h: string, p: string, e: string)
    requires NoClash(f, u, h, p, e)
    ensures DropScheme(Spelled(f, u, h, p, e)) == Spelled(if f.Scp? then Scp else Bare, u, h, p, e)
  {
    if f.Url? { SchemeDropped(f.scheme, u + (h + ("/" + (p + e)))); }
  }

  lemma UserStage(f: Form, u: string, h: string, p: string, e: string)
    requires NoClash(f, u, h, p, e) && Userinfo(u)
    ensures DropUser(Spelled(if f.Scp? then Scp else Bare, u, h, p, e))
            == Spelled(if f.Scp? then Scp else Bare, "", h, p, e)
  {
    hide AfterScheme;
    var tail := if f.Scp? then ":" + (p + e) else "/" + (p + e);
    assert Spelled(if f.Scp? then Scp else Bare, u, h, p, e) == u + (h + tail);
    assert Spelled(if f.Scp? then Scp else Bare, "", h, p, e) == h + tail;
    if u != "" {
      UserDropped(u, h + tail);
    } else {
      assert !f.Scp? ==> Find(tail, '/') == 0;
      NoUser(h, tail);
    }
  }

  lemma ColonStage(f: Form, u: string, h: string, p: string, e: string)
    requires NoClash(f, u, h, p, e)
    ensures ScpColon(Spelled(if f.Scp? then Scp else Bare, "", h, p, e)) == h + "/" + (p + e)
  {
    hide AfterScheme, ScpColon, Find, AllDigits;
    if f.Scp? {
      ColonReplaced(h, p, e);
      assert h + ":" + (p + e) == Spelled(Scp, "", h, p, e);
    } else {
      var tail := "/" + (p + e);
      assert tail[0] == '/';
      PortStays(h, tail);
      assert h + tail == Spelled(Bare, "", h, p, e);
      assert h + tail == h + "/" + (p + e);
    }
  }

  lemma HostStart(f: Form, u: string, h: string, p: string, e: string)
    requires NoClash(f, u, h, p, e)
    ensures h != "" && h[0] != '/'
  {
  }

  /** Every spelling folds to the one key: whatever its ASCII case and the white space around
      it, whether a URL of any scheme, without a scheme or in scp form, with or without a user,
      with or without ".git" or with a trailing slash. */
  lemma SpellingsFold(remote: string, f: Form, u: string, h: string, p: string, e: string)
    requires Lower(Trim(remote)) == Spelled(f, u, h, p, e)
    requires Userinfo(u) && Path(p) && Ending(e) && NoClash(f, u, h, p, e)
    ensures Normalized(remote) == h + "/" + p
  {
    SchemeStage(f, u, h, p, e);
    UserStage(f, u, h, p, e);
    ColonStage(f, u, h, p, e);
    HostStart(f, u, h, p, e);
    EndingDropped(h, p, e);
    hide *;
    assert Normalized(remote)
      == TrimSlashes(DropGit(ScpColon(DropUser(DropScheme(Lower(Trim(remote))))))) by { NormalizedIs(remote); }
  }

  lemma NormalizedIs(remote: string)
    ensures Normalized(remote) == TrimSlashes(DropGit(ScpColon(DropUser(DropScheme(Lower(Trim(remote)))))))
  {
  }

  // ----- folding again -----

  /** What folding leaves alone. */
  predicate Fixed(s: string) {
    && Lower(s) == s && Trimmed(s) && AfterScheme(s).None? && Find(s, '@') >= Find(s, '/')
    && !(Find(s, ':') < Find(s, '/') && !IsPort(s[Find(s, ':') + 1..]))
    && StripSuffix(s, ".git").None? && (s == "" || (s[0] != '/' && s[|s| - 1] != '/'))
  }

  lemma StagesShrink(s: string)
    ensures |DropScheme(s)| <= |s| && (|DropScheme(s)| == |s| <==> AfterScheme(s).None?)
    ensures |DropUser(s)| <= |s| && (|DropUser(s)| == |s| <==> Find(s, '@') >= Find(s, '/'))
    ensures |ScpColon(s)| == |s|
    ensures |DropGit(s)| <= |s| && (|DropGit(s)| == |s| <==> StripSuffix(s, ".git").None?)
    ensures |TrimSlashes(s)| <= |s| && (|TrimSlashes(s)| == |s| ==> TrimSlashes(s) == s)
  {
    SchemeShrinks(s);
    hide AfterScheme, Find;
  }

  lemma {:induction false} SchemeShrinks(s: string)
    ensures AfterScheme(s).Some? ==> |AfterScheme(s).value| < |s|
    decreases |s|
  {
    if |s| >= 3 && s[..3] != "://" { SchemeShrinks(s[1..]); }
  }

  lemma SlashFixed(s: string)
    ensures TrimSlashes(s) == s <==> s == "" || (s[0] != '/' && s[|s| - 1] != '/')
  {
    if s != "" && s[0] != '/' && s[|s| - 1] != '/' { SlashesTrimmed(s); }
  }

  lemma TrimShrinks(s: string)
    ensures |Trim(s)| <= |s| && (|Trim(s)| == |s| ==> Trim(s) == s)
  {
  }

  lemma ColonFixed(s: string)
    ensures ScpColon(s) == s <==> !(Find(s, ':') < Find(s, '/') && !IsPort(s[Find(s, ':') + 1..]))
  {
    FindIs(s, ':');
    hide IsPort;
  }

  lemma ColonLower(s: string)
    requires ScpColon(Lower(s)) == s
    ensures Lower(s) == s
  {
    var a := Lower(s);
    FindIs(a, ':');
    hide Find, IsPort;
    var colon := Find(a, ':');
    if colon < |a| {
      assert a[colon] == LowerChar(s[colon]) == ':';
    }
  }

  lemma FixedIsKept(s: string)
    requires Fixed(s)
    ensures Normalized(s) == s
  {
    NormalizedIs(s);
    TrimKeepsIffTrimmed(s);
    SameStages(s);
    ColonFixed(s);
    SlashFixed(s);
    hide AfterScheme, Find, Lower, Trim, IsPort, StripSuffix, TrimSlashes, Normalized, ScpColon, DropScheme,
         DropUser, DropGit, Trimmed;
  }

  lemma KeptIsFixed(s: string)
    requires Normalized(s) == s
    ensures Fixed(s)
  {
    var a := Lower(Trim(s));
    var b := DropScheme(a);
    var c := DropUser(b);
    var d := ScpColon(c);
    var e := DropGit(d);
    NormalizedIs(s);
    TrimShrinks(s);
    TrimKeepsIffTrimmed(s);
    LowerLength(Trim(s));
    StagesShrink(a);
    StagesShrink(b);
    StagesShrink(c);
    StagesShrink(d);
    StagesShrink(e);
    SameStages(a);
    SameStages(b);
    SameStages(d);
    hide AfterScheme, Find, Lower, Trim, IsPort, StripSuffix, TrimSlashes, Normalized, ScpColon, DropScheme,
         DropUser, DropGit, Trimmed;
    assert Trim(s) == s && b == a && c == a && d == s && e == s;
    ColonLower(s);
    ColonFixed(s);
    SlashFixed(s);
  }

  /** A folded remote is left alone exactly when it is `Fixed`. */
  lemma FixedIff(s: string)
    ensures Normalized(s) == s <==> Fixed(s)
  {
    hide Normalized, Fixed;
    if Fixed(s) { FixedIsKept(s); }
    if Normalized(s) == s { KeptIsFixed(s); }
  }

  lemma LowerLength(s: string)
    ensures |Lower(s)| == |s|
  {
  }

  lemma SameStages(s: string)
    ensures AfterScheme(s).None? ==> DropScheme(s) == s
    ensures Find(s, '@') >= Find(s, '/') ==> DropUser(s) == s
    ensures StripSuffix(s, ".git").None? ==> DropGit(s) == s
  {
  }

  // ----- which spellings fold once -----

  /** What folding keeps of a path: one ".git" goes, then the slashes at the end. */
  function PathKept(q: string): (r: string)
    ensures r <= q && (r == "" || r[|r| - 1] != '/')
  {
    TrimEndChar(DropGit(q), '/')
  }

  function Key(h: string, rest: string): string { if rest == "" then h else h + "/" + rest }

  /** The host and what is kept of the path start and end without white space, hold no "://", and
      do not end in another ".git". */
  predicate FoldsOnce(h: string, rest: string)
    requires h != ""
  {
    var last := if rest == "" then h else rest;
    !White(h[0]) && !White(last[|last| - 1]) && AfterScheme(rest).None? && StripSuffix(last, ".git").None?
  }

  lemma GitOfPath(h: string, q: string)
    ensures DropGit(h + "/" + q) == h + "/" + DropGit(q)
    ensures StripSuffix(h + "/" + q, ".git").None? <==> StripSuffix(q, ".git").None?
  {
    var s := h + "/" + q;
    if |q| >= 4 {
      assert s[|s| - 4..] == q[|q| - 4..];
      assert s[..|s| - 4] == h + "/" + q[..|q| - 4];
    } else if |s| >= 4 {
      assert s[|h|] == '/' && s[|s| - 4..][|h| - (|s| - 4)] == '/';
    }
  }

  lemma {:induction false} SlashesOfPath(h: string, q: string)
    requires h != "" && '/' !in h
    ensures TrimEndChar(h + "/" + q, '/') == Key(h, TrimEndChar(q, '/'))
    decreases |q|
  {
    var s := h + "/" + q;
    if q == "" {
      assert s[..|s| - 1] == h && h[|h| - 1] != '/';
    } else if q[|q| - 1] == '/' {
      assert s[..|s| - 1] == h + "/" + q[..|q| - 1];
      SlashesOfPath(h, q[..|q| - 1]);
    }
  }

  lemma KeyKept(h: string, q: string)
    requires h != "" && '/' !in h
    ensures TrimSlashes(DropGit(h + "/" + q)) == Key(h, PathKept(q))
  {
    GitOfPath(h, q);
    hide DropGit;
    var s := h + "/" + DropGit(q);
    assert s[0] == h[0] != '/';
    assert TrimStartChar(s, '/') == s;
    SlashesOfPath(h, DropGit(q));
  }

  /** No "://" starts in `a`. */
  predicate NoScheme(a: string) { forall i :: 0 <= i < |a| && a[i] == ':' ==> i + 1 < |a| && a[i + 1] != '/' }

  lemma {:induction false} SchemeOfPath(a: string, b: string)
    requires NoScheme(a)
    ensures AfterScheme(a + b) == AfterScheme(b)
    decreases |a|
  {
    if a == "" {
      assert a + b == b;
    } else {
      assert NoScheme(a[1..]) by {
        forall i | 0 <= i < |a[1..]| && a[1..][i] == ':' ensures i + 1 < |a[1..]| && a[1..][i + 1] != '/' {
          assert a[i + 1] == ':';
        }
      }
      SchemeOfPath(a[1..], b);
      assert (a + b)[1..] == a[1..] + b;
      var s := a + b;
      assert s[0] == a[0];
      if |a| > 1 { assert s[1] == a[1]; }
      if |s| >= 3 { assert s[..3][0] == s[0] && s[..3][1] == s[1]; }
    }
  }

  lemma HostHasNoScheme(h: string)
    requires Host(h)
    ensures NoScheme(h) && NoScheme(h + "/")
  {
    FindIs(h, ':');
    var colon := Find(h, ':');
    hide Find;
    assert forall i :: 0 <= i < colon ==> h[..colon][i] == h[i];
    assert forall i :: colon < i < |h| ==> h[colon + 1..][i - colon - 1] == h[i];
    assert forall i :: colon < i < |h| ==> Digit(h[i]);
  }

  lemma HostNameIsHost(h: string)
    requires HostName(h)
    ensures Host(h)
  {
    FindIs(h, ':');
  }

  lemma {:induction false} FindNone(s: string, c: char)
    requires c !in s
    ensures Find(s, c) == |s|
    decreases |s|
  {
    if s == "" {
    } else {
      FindNone(s[1..], c);
    }
  }

  /** Host and path separate as they did. */
  lemma KeySeparates(h: string, rest: string)
    requires Host(h)
    ensures var r := Key(h, rest); Find(r, '@') >= Find(r, '/') && ScpColon(r) == r
  {
    FindNone(h, '/');
    FindNone(h, '@');
    if rest == "" {
      FindIs(h, ':');
      var colon := Find(h, ':');
      if colon < |h| {
        assert '/' !in h[colon + 1..];
        FindNone(h[colon + 1..], '/');
        assert h[colon + 1..][0] == h[colon + 1];
      }
    } else {
      var tail := "/" + rest;
      assert h + "/" + rest == h + tail;
      assert Find(tail, '/') == 0;
      FindAt(h, '/', tail);
      FindAt(h, '@', tail);
      PortStays(h, tail);
    }
  }

  lemma KeyEdges(h: string, rest: string)
    requires Host(h) && (rest == "" || rest[|rest| - 1] != '/')
    ensures var r := Key(h, rest); var last := if rest == "" then h else rest;
            h != "" && r != "" && r[0] == h[0] != '/' && r[|r| - 1] == last[|last| - 1] != '/'
  {
    hide Find, AllDigits;
  }

  lemma KeyUncut(h: string, rest: string)
    requires Host(h)
    ensures AfterScheme(Key(h, rest)).None? <==> AfterScheme(rest).None?
    ensures rest != "" ==> (StripSuffix(Key(h, rest), ".git").None? <==> StripSuffix(rest, ".git").None?)
  {
    HostHasNoScheme(h);
    assert AfterScheme("").None?;
    hide Host, AfterScheme, NoScheme, StripSuffix, DropGit;
    SchemeOfPath(h, "");
    assert h + "" == h;
    SchemeOfPath(h + "/", rest);
    GitOfPath(h, rest);
  }

  lemma KeyLower(h: string, rest: string)
    requires Lower(h) == h && Lower(rest) == rest
    ensures Lower(Key(h, rest)) == Key(h, rest)
  {
    assert forall i :: 0 <= i < |h| ==> LowerChar(h[i]) == h[i];
    assert forall i :: 0 <= i < |rest| ==> LowerChar(rest[i]) == rest[i];
  }

  lemma KeyFixed(h: string, rest: string)
    requires Host(h) && Lower(h) == h && Lower(rest) == rest && (rest == "" || rest[|rest| - 1] != '/')
    ensures h != ""
    ensures Fixed(Key(h, rest)) <==> FoldsOnce(h, rest)
  {
    KeySeparates(h, rest);
    KeyEdges(h, rest);
    KeyUncut(h, rest);
    KeyLower(h, rest);
    hide *;
    assert rest == "" ==> Key(h, rest) == h by { KeyAlone(h); }
    FixedMeans(Key(h, rest));
    OnceMeans(h, rest);
  }

  lemma KeyAlone(h: string)
    ensures Key(h, "") == h
  {
  }

  lemma FixedMeans(s: string)
    requires s != "" && Lower(s) == s && s[0] != '/' && s[|s| - 1] != '/'
    requires Find(s, '@') >= Find(s, '/') && ScpColon(s) == s
    ensures Fixed(s) <==> !White(s[0]) && !White(s[|s| - 1]) && AfterScheme(s).None? && StripSuffix(s, ".git").None?
  {
    hide *;
    ColonFixed(s);
    EndsTrimmed(s);
    FixedIsTrimmed(s);
  }

  lemma EndsTrimmed(s: string)
    requires s != ""
    ensures Trimmed(s) <==> !White(s[0]) && !White(s[|s| - 1])
  {
    hide White;
  }

  lemma FixedIsTrimmed(s: string)
    requires s != "" && Lower(s) == s && s[0] != '/' && s[|s| - 1] != '/' && Find(s, '@') >= Find(s, '/')
    requires !(Find(s, ':') < Find(s, '/') && !IsPort(s[Find(s, ':') + 1..]))
    ensures Fixed(s) <==> Trimmed(s) && AfterScheme(s).None? && StripSuffix(s, ".git").None?
  {
    hide AfterScheme, StripSuffix, Find, IsPort, Lower, Trimmed;
  }

  lemma OnceMeans(h: string, rest: string)
    requires h != ""
    ensures FoldsOnce(h, rest) <==> var last := if rest == "" then h else rest;
            !White(h[0]) && !White(last[|last| - 1]) && AfterScheme(rest).None? && StripSuffix(last, ".git").None?
  {
    hide White, AfterScheme, StripSuffix;
  }

  lemma LowerInside(x: string, a: string, b: string, c: string)
    requires Lower(x) == a + b + c
    ensures Lower(b) == b
  {
    forall i | 0 <= i < |b| ensures LowerChar(b[i]) == b[i] {
      assert b[i] == (a + b + c)[|a| + i] == LowerChar(x[|a| + i]);
    }
  }

  lemma LowerParts(x: string, f: Form, u: string, h: string, p: string, e: string)
    requires Lower(x) == Spelled(f, u, h, p, e)
    ensures Lower(h) == h && Lower(PathKept(p + e)) == PathKept(p + e)
  {
    hide Lower, PathKept;
    var before := if f.Url? then f.scheme + "://" + u else u;
    var mark := if f.Scp? then ":" else "/";
    var q := p + e;
    var rest := PathKept(q);
    assert q == rest + q[|rest|..];
    assert Spelled(f, u, h, p, e) == before + h + (mark + q);
    LowerInside(x, before, h, mark + q);
    assert before + h + (mark + q) == (before + h + mark) + rest + q[|rest|..];
    LowerInside(x, before + h + mark, rest, q[|rest|..]);
  }

  lemma HostOf(f: Form, u: string, h: string, p: string, e: string)
    requires NoClash(f, u, h, p, e)
    ensures Host(h) && h != "" && '/' !in h
  {
    if f.Scp? { HostNameIsHost(h); }
  }

  /** A spelling with any path and any ending folds to the host and what is kept of the path, and
      folding again changes nothing exactly when these two `FoldsOnce`. */
  lemma FoldTwiceIff(remote: string, f: Form, u: string, h: string, p: string, e: string)
    requires Lower(Trim(remote)) == Spelled(f, u, h, p, e) && Userinfo(u) && NoClash(f, u, h, p, e)
    ensures Normalized(remote) == Key(h, PathKept(p + e)) && h != ""
    ensures Normalized(Normalized(remote)) == Normalized(remote) <==> FoldsOnce(h, PathKept(p + e))
  {
    hide *;
    SchemeStage(f, u, h, p, e);
    UserStage(f, u, h, p, e);
    ColonStage(f, u, h, p, e);
    HostOf(f, u, h, p, e);
    KeyKept(h, p + e);
    NormalizedIs(remote);
    LowerParts(Trim(remote), f, u, h, p, e);
    KeyFixed(h, PathKept(p + e));
    FixedIff(Normalized(remote));
  }

  /** It need not be: a slash after ".git" hides the ending the first time. */
  lemma GitSlashFoldsTwice(h: string, p: string)
    requires Path(p) && NoClash(Bare, "", h, p, ".git") && NoClash(Bare, "", h, p, ".git/")
    requires Lower(Trim(h + "/" + (p + ".git"))) == h + "/" + (p + ".git")
    requires Lower(Trim(h + "/" + (p + ".git/"))) == h + "/" + (p + ".git/")
    ensures Normalized(h + "/" + (p + ".git/")) == h + "/" + (p + ".git")
    ensures Normalized(h + "/" + (p + ".git")) == h + "/" + p
  {
    hide *;
    BareSpelled(h, p, ".git");
    EmptyUser();
    SpellingsFold(h + "/" + (p + ".git"), Bare, "", h, p, ".git");
    GitSlashOnce(h, p);
  }

  lemma EmptyUser()
    ensures Userinfo("") && Ending(".git")
  {
  }

  lemma GitSlashOnce(h: string, p: string)
    requires NoClash(Bare, "", h, p, ".git/") && Lower(Trim(h + "/" + (p + ".git/"))) == h + "/" + (p + ".git/")
    ensures Normalized(h + "/" + (p + ".git/")) == h + "/" + (p + ".git")
  {
    hide *;
    BareSpelled(h, p, ".git/");
    EmptyUser();
    SchemeStage(Bare, "", h, p, ".git/");
    UserStage(Bare, "", h, p, ".git/");
    ColonStage(Bare, "", h, p, ".git/");
    HostStart(Bare, "", h, p, ".git/");
    NormalizedIs(h + "/" + (p + ".git/"));
    SlashEnding(h, p);
  }

  lemma SlashEnding(h: string, p: string)
    requires h != "" && h[0] != '/'
    ensures TrimSlashes(DropGit(h + "/" + (p + ".git/"))) == h + "/" + (p + ".git")
  {
    hide TrimSlashes, DropGit;
    var key := h + "/" + (p + ".git");
    assert h + "/" + (p + ".git/") == key + "/";
    assert key[0] == h[0] && key[|key| - 1] == 't';
    SlashIsNotGit(key);
    SlashesTrimmed(key);
  }

  lemma BareSpelled(h: string, p: string, e: string)
    ensures Spelled(Bare, "", h, p, e) == h + "/" + (p + e)
  {
  }
}
