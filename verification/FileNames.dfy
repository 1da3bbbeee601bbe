/** File-name rules shared by the upload path and the activity feed. */
module FileNames {

  function LowerChar(c: char): char {
    if 'A' <= c <= 'Z' then (c as int + 32) as char else c
  }

  /** ASCII lower case; other characters are kept. */
  function Lower(s: string): (r: string)
    ensures |r| == |s| && forall i :: 0 <= i < |s| ==> r[i] == LowerChar(s[i])
  {
    seq(|s|, i requires 0 <= i < |s| => LowerChar(s[i]))
  }

  predicate EndsWith(s: string, suffix: string) {
    |suffix| <= |s| && s[|s| - |suffix|..] == suffix
  }

  lemma EndsWithExactly(s: string, suffix: string)
    ensures EndsWith(s, suffix) <==> exists stem :: s == stem + suffix
  {
    if EndsWith(s, suffix) {
      assert s == s[..|s| - |suffix|] + suffix;
    }
  }

  /** Office lock and temp files and system metadata, which are never uploaded nor reported. */
  predicate IsTransient(name: string) {
    || "~$" <= name
    || ("~" <= name && EndsWith(Lower(name), ".tmp"))
    || Lower(name) in {"thumbs.db", "desktop.ini", ".ds_store"}
  }

  /** Ordinal comparison ignoring ASCII case, as NTFS does. */
  predicate NamesMatch(a: string, b: string) {
    Lower(a) == Lower(b)
  }

  /** Names match exactly when they differ in nothing but the case of the letters A to Z. */
  lemma NamesMatchExactly(a: string, b: string)
    ensures NamesMatch(a, b) <==>
      && |a| == |b|
      && forall i :: 0 <= i < |a| ==>
           || a[i] == b[i]
           || ('A' <= a[i] <= 'Z' && b[i] as int == a[i] as int + 32)
           || ('A' <= b[i] <= 'Z' && a[i] as int == b[i] as int + 32)
  {
    if NamesMatch(a, b) {
      assert |a| == |Lower(a)| == |b|;
      forall i | 0 <= i < |a| ensures LowerChar(a[i]) == LowerChar(b[i]) {
        assert Lower(a)[i] == Lower(b)[i];
      }
    }
  }

  /** The transient names: `~$` files, `~` files with extension `tmp`, and three system files, in any letter case. */
  lemma TransientExactly(name: string, systems: set<string>)
    requires systems == {"thumbs.db", "desktop.ini", ".ds_store"}
    ensures IsTransient(name) <==>
      || (|name| >= 2 && name[0] == '~' && name[1] == '$')
      || (|name| >= 5 && name[0] == '~' && NamesMatch(name[|name| - 4..], ".tmp"))
      || exists s :: s in systems && NamesMatch(name, s)
  {
    TmpEnding(name);
    SystemNamesAreLower(systems);
    LowerOf(systems, name);
  }

  predicate IsLower(s: string) {
    forall i :: 0 <= i < |s| ==> !('A' <= s[i] <= 'Z')
  }

  lemma SystemNamesAreLower(systems: set<string>)
    requires systems == {"thumbs.db", "desktop.ini", ".ds_store"}
    ensures forall s :: s in systems ==> IsLower(s)
  {
  }

  lemma LowerOf(names: set<string>, name: string)
    requires forall s :: s in names ==> IsLower(s)
    ensures Lower(name) in names <==> exists s :: s in names && NamesMatch(name, s)
  {
    LowerKeeps(Lower(name));
    if s :| s in names && NamesMatch(name, s) {
      LowerKeeps(s);
    }
  }

  lemma LowerKeeps(s: string)
    requires IsLower(s)
    ensures Lower(s) == s
  {
  }

  lemma TmpEnding(name: string)
    ensures "~" <= name && EndsWith(Lower(name), ".tmp") <==>
      |name| >= 5 && name[0] == '~' && NamesMatch(name[|name| - 4..], ".tmp")
  {
    LowerKeeps(".tmp");
    if |name| >= 4 {
      assert Lower(name)[|name| - 4..] == Lower(name[|name| - 4..]);
      assert EndsWith(Lower(name), ".tmp") ==> Lower(name)[|name| - 4] == '.';
    }
  }

  /** The position of the last `c`, or the length of the string when there is none. */
  function LastIndexOf(s: string, c: char): (p: nat)
    ensures p <= |s| && (p < |s| ==> s[p] == c)
    ensures forall i :: p < i < |s| ==> s[i] != c
    ensures p == |s| ==> c !in s
  {
    if s == "" then 0
    else
      var n := |s| - 1;
      if s[n] == c then n
      else
        var p := LastIndexOf(s[..n], c);
        if p == n then |s| else p
  }

  /** `report.docx` becomes `report.conflict.<stamp>.docx`. */
  function ConflictName(original: string, stamp: string): string {
    var p := LastIndexOf(original, '.');
    original[..p] + ".conflict." + stamp + original[p..]
  }

  /** A conflict copy keeps stem and extension and can never be the file it is a copy of. */
  lemma ConflictNameIsNew(original: string, stamp: string)
    ensures ConflictName(original, stamp) != original
    ensures original[..LastIndexOf(original, '.')] <= ConflictName(original, stamp)
    ensures EndsWith(ConflictName(original, stamp), original[LastIndexOf(original, '.')..])
  {
    assert |ConflictName(original, stamp)| == |original| + |".conflict."| + |stamp|;
  }

  lemma LastIndexOfDot(stem: string, ext: string)
    requires '.' !in ext
    ensures LastIndexOf(ext, '.') == |ext| && LastIndexOf(stem + "." + ext, '.') == |stem|
  {
    var name := stem + "." + ext;
    assert name[|stem|] == '.' && name[|stem| + 1..] == ext;
    forall i | |stem| < i < |name| ensures name[i] != '.' {
      assert name[i] == ext[i - |stem| - 1];
    }
  }

  /** The stamp goes before the last dot, or to the end of a name without one. */
  lemma ConflictNameExactly(stem: string, ext: string, stamp: string)
    requires '.' !in ext
    ensures ConflictName(stem + "." + ext, stamp) == stem + ".conflict." + stamp + "." + ext
    ensures ConflictName(ext, stamp) == ext + ".conflict." + stamp
  {
    LastIndexOfDot(stem, ext);
    var name := stem + "." + ext;
    assert name[..|stem|] == stem && name[|stem|..] == "." + ext;
  }

  /** Whether a name is transient does not depend on letter case. */
  lemma TransientIgnoresCase(a: string, b: string)
    requires NamesMatch(a, b)
    ensures IsTransient(a) == IsTransient(b)
  {
    assert |a| == |Lower(a)| == |b|;
    forall i | 0 <= i < |a| ensures LowerChar(a[i]) == LowerChar(b[i]) {
      assert Lower(a)[i] == Lower(b)[i];
    }
    assert |a| >= 2 ==> (a[..2] == "~$" <==> b[..2] == "~$");
    assert |a| >= 1 ==> (a[..1] == "~" <==> b[..1] == "~");
  }
}
