/**
What `isValidRefName` of `src/worker/git/operations/validation.ts` accepts, component by component.
 */
module RefNames {
  import opened Validation

  /** A path component as the name rules see it. */
  predicate ValidComponent(part: string) {
    && part != "" && part != "." && part != ".."
    && (forall i :: 0 <= i < |part| ==> !ForbiddenChar(part[i]))
    && !Includes(part, "@{") && !Includes(part, "\\")
  }

  predicate AllComponents(parts: seq<string>) {
    parts == [] || (ValidComponent(parts[0]) && AllComponents(parts[1..]))
  }

  /** The components of a string, put together with slashes. */
  function Join(parts: seq<string>): string
    requires |parts| > 0
  {
    if |parts| == 1 then parts[0] else parts[0] + "/" + Join(parts[1..])
  }

  predicate NoSlash(part: string) {
    '/' !in part
  }

  predicate Segments(parts: seq<string>) {
    parts == [] || (NoSlash(parts[0]) && Segments(parts[1..]))
  }

  /** Splitting and joining undo each other. */
  lemma {:induction false} SplitJoins(s: string)
    ensures Join(Split(s)) == s && Segments(Split(s))
  {
    if s != "" {
      SplitJoins(s[1..]);
      var rest, parts := Split(s[1..]), Split(s);
      if s[0] == '/' {
        assert parts[1..] == rest;
      } else {
        assert parts[0] == [s[0]] + rest[0] && parts[1..] == rest[1..];
      }
    }
  }

  // ---------- Substrings ----------

  lemma {:induction false} IncludesAt(s: string, part: string, k: nat)
    requires k + |part| <= |s| && s[k..k + |part|] == part
    ensures Includes(s, part)
  {
    if k > 0 {
      assert s[1..][k - 1..k - 1 + |part|] == s[k..k + |part|];
      IncludesAt(s[1..], part, k - 1);
    }
  }

  lemma {:induction false} IncludedAt(s: string, part: string) returns (k: nat)
    requires Includes(s, part)
    ensures k + |part| <= |s| && s[k..k + |part|] == part
  {
    if StartsWith(s, part) {
      k := 0;
    } else {
      var j := IncludedAt(s[1..], part);
      k := j + 1;
      assert s[1..][j..j + |part|] == s[k..k + |part|];
    }
  }

  /** A slash-free string lies on one side of a slash. */
  lemma {:induction false} IncludesAcrossSlash(a: string, b: string, part: string)
    requires NoSlash(part) && part != ""
    ensures Includes(a + "/" + b, part) <==> Includes(a, part) || Includes(b, part)
  {
    var s := a + "/" + b;
    if Includes(s, part) {
      var k := IncludedAt(s, part);
      OneSide(a, b, part, k);
    }
    if Includes(a, part) {
      var k := IncludedAt(a, part);
      assert s[k..k + |part|] == a[k..k + |part|];
      IncludesAt(s, part, k);
    }
    if Includes(b, part) {
      var k := IncludedAt(b, part);
      var at := |a| + 1 + k;
      assert s[at..at + |part|] == b[k..k + |part|];
      IncludesAt(s, part, at);
    }
  }

  /** Where a slash-free string stands there is no slash. */
  lemma {:induction false} NoSlashAt(s: string, part: string, k: nat)
    requires NoSlash(part) && k + |part| <= |s| && s[k..k + |part|] == part
    ensures forall i :: k <= i < k + |part| ==> s[i] != '/'
  {
    forall i | k <= i < k + |part| ensures s[i] != '/' {
      assert s[i] == part[i - k];
    }
  }

  lemma {:induction false} OneSide(a: string, b: string, part: string, k: nat)
    requires NoSlash(part) && part != ""
    requires var s := a + "/" + b; k + |part| <= |s| && s[k..k + |part|] == part
    ensures Includes(a, part) || Includes(b, part)
  {
    var s := a + "/" + b;
    NoSlashAt(s, part, k);
    assert s[|a|] == '/';
    if k + |part| <= |a| {
      assert a[k..k + |part|] == s[k..k + |part|];
      IncludesAt(a, part, k);
    } else {
      var j := k - |a| - 1;
      assert b[j..j + |part|] == s[k..k + |part|];
      IncludesAt(b, part, j);
    }
  }

  /** Two slashes in a row are an empty component. */
  lemma {:induction false} DoubleSlash(a: string, b: string)
    requires NoSlash(a)
    ensures Includes(a + "/" + b, "//") <==> StartsWith(b, "/") || Includes(b, "//")
  {
    var s := a + "/" + b;
    if Includes(s, "//") {
      var k := IncludedAt(s, "//");
      assert s[k..k + 2][0] == s[k] == '/' && s[k..k + 2][1] == s[k + 1] == '/';
      if k > |a| {
        var j := k - |a| - 1;
        assert b[j..j + 2] == s[k..k + 2];
        IncludesAt(b, "//", j);
      } else {
        assert k == |a|;
        assert b[0] == s[|a| + 1];
        assert b[..1] == "/";
      }
    }
    if StartsWith(b, "/") {
      assert b[..1][0] == b[0];
      assert s[|a|..|a| + 2] == "//";
      IncludesAt(s, "//", |a|);
    }
    if Includes(b, "//") {
      var k := IncludedAt(b, "//");
      var at := |a| + 1 + k;
      assert s[at..at + 2] == b[k..k + 2];
      IncludesAt(s, "//", at);
    }
  }

  // ---------- Component by component ----------

  /** An empty component shows as a slash at either end or as two slashes in a row. */
  predicate HasGap(s: string) {
    s == "" || Includes(s, "//") || StartsWith(s, "/") || EndsWith(s, "/")
  }

  lemma {:induction false} GapHasSlash(a: string)
    requires a != "" && HasGap(a)
    ensures '/' in a
  {
    if Includes(a, "//") {
      var k := IncludedAt(a, "//");
      assert a[k..k + 2][0] == a[k];
    } else if StartsWith(a, "/") {
      assert a[..1][0] == a[0];
    } else {
      assert a[|a| - 1..][0] == a[|a| - 1];
    }
  }

  lemma {:induction false} GapInSegment(a: string)
    requires NoSlash(a)
    ensures HasGap(a) <==> a == ""
  {
    if a != "" && HasGap(a) {
      GapHasSlash(a);
    }
  }

  lemma {:induction false} GapAcrossSlash(a: string, b: string)
    requires NoSlash(a)
    ensures HasGap(a + "/" + b) <==> a == "" || HasGap(b)
  {
    var s := a + "/" + b;
    DoubleSlash(a, b);
    assert StartsWith(s, "/") <==> a == "" by {
      assert s[..1] == [s[0]];
      assert a != "" ==> s[0] == a[0];
    }
    assert EndsWith(s, "/") <==> b == "" || EndsWith(b, "/") by {
      assert s[|s| - 1..] == [s[|s| - 1]];
      assert b != "" ==> s[|s| - 1] == b[|b| - 1] && b[|b| - 1..] == [b[|b| - 1]];
    }
  }

  predicate PlainChars(s: string) {
    forall i :: 0 <= i < |s| ==> !ForbiddenChar(s[i])
  }

  lemma {:induction false} CharsAcrossSlash(a: string, b: string)
    ensures PlainChars(a + "/" + b) <==> PlainChars(a) && PlainChars(b)
  {
    var s := a + "/" + b;
    if PlainChars(s) {
      forall i | 0 <= i < |a| ensures !ForbiddenChar(a[i]) {
        assert a[i] == s[i];
      }
      forall i | 0 <= i < |b| ensures !ForbiddenChar(b[i]) {
        assert b[i] == s[|a| + 1 + i];
      }
    }
  }

  predicate NoDots(parts: seq<string>) {
    forall i :: 0 <= i < |parts| ==> parts[i] != "." && parts[i] != ".."
  }

  /** The checks on a name that look at no particular component. */
  predicate Acceptable(s: string, parts: seq<string>) {
    !HasGap(s) && PlainChars(s) && NoDots(parts) && !Includes(s, "@{") && !Includes(s, "\\")
  }

  lemma {:induction false} AcceptableIsByComponent(parts: seq<string>)
    requires |parts| > 0 && Segments(parts)
    ensures Acceptable(Join(parts), parts) <==> AllComponents(parts)
  {
    var a := parts[0];
    if |parts| == 1 {
      GapInSegment(a);
      assert AllComponents(parts[1..]);
    } else {
      var b := Join(parts[1..]);
      AcceptableIsByComponent(parts[1..]);
      GapAcrossSlash(a, b);
      CharsAcrossSlash(a, b);
      IncludesAcrossSlash(a, b, "@{");
      IncludesAcrossSlash(a, b, "\\");
      assert NoDots(parts) <==> a != "." && a != ".." && NoDots(parts[1..]) by {
        assert parts == [a] + parts[1..];
      }
    }
  }

  lemma {:induction false} EndAcrossSlash(a: string, b: string, suffix: string)
    requires NoSlash(suffix)
    ensures EndsWith(a + "/" + b, suffix) <==> EndsWith(b, suffix)
  {
    var s := a + "/" + b;
    if EndsWith(s, suffix) {
      var k := |s| - |suffix|;
      NoSlashAt(s, suffix, k);
      assert suffix != "" ==> s[|a|] == '/' && k > |a|;
      assert b[|b| - |suffix|..] == s[k..];
    }
    if EndsWith(b, suffix) {
      assert s[|s| - |suffix|..] == b[|b| - |suffix|..];
    }
  }

  lemma {:induction false} EndIsInLast(parts: seq<string>, suffix: string)
    requires |parts| > 0 && NoSlash(suffix)
    ensures EndsWith(Join(parts), suffix) <==> EndsWith(parts[|parts| - 1], suffix)
  {
    if |parts| > 1 {
      EndAcrossSlash(parts[0], Join(parts[1..]), suffix);
      EndIsInLast(parts[1..], suffix);
    }
  }

  lemma {:induction false} StartHasSlash(s: string)
    requires StartsWith(s, "refs/")
    ensures '/' in s && s[4] == '/' && s[..4] == "refs"
  {
    assert s[..5][4] == s[4];
    assert s[..5][..4] == s[..4];
  }

  lemma {:induction false} StartIsFirst(parts: seq<string>)
    requires |parts| > 0 && Segments(parts)
    ensures StartsWith(Join(parts), "refs/") <==> |parts| > 1 && parts[0] == "refs"
  {
    var s, a := Join(parts), parts[0];
    if StartsWith(s, "refs/") {
      StartHasSlash(s);
      assert |parts| > 1;
      assert s[..|a|] == a && s[|a|] == '/';
      NoSlashAt(s, a, 0);
      NoSlashAt(s, "refs", 0);
    }
    if |parts| > 1 && a == "refs" {
      assert s[..5] == "refs/";
    }
  }

  /**
  A name is accepted exactly when it is `refs/` followed by components that are neither empty
  nor dots and hold no forbidden character, backslash or `@{`, the last of them ending in
  neither `.` nor `.lock`.
   */
  lemma {:induction false} ValidRefNames(name: string)
    ensures var parts := Split(name);
            IsValidRefName(name) <==>
            |parts| > 1 && parts[0] == "refs" && AllComponents(parts)
            && !EndsWith(parts[|parts| - 1], ".") && !EndsWith(parts[|parts| - 1], ".lock")
  {
    var parts := Split(name);
    SplitJoins(name);
    StartIsFirst(parts);
    AcceptableIsByComponent(parts);
    EndIsInLast(parts, ".");
    EndIsInLast(parts, ".lock");
    assert StartsWith(name, "refs/") ==> name[..5][0] == name[0] == 'r';
  }
}
