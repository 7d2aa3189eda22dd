/** The database file name: `formatDBName` and the inverse parse done while
    loading the database directory. */
module DbName {
  import opened Files

  /** The database directory, `server/db` under the working directory. */
  const DbDir: string := "server/db"

  /** The credential and name a database file belongs to. */
  datatype DbIdentity = DbIdentity(pass: string, name: string)

  /** `formatDBName`: the file `[<pass>]-<name>.json` in the database directory.
      Every formatted name has the shape the corrected parse expects. */
  function FormatDbName(pass: string, name: string): (p: Path)
    ensures p.dir == DbDir
    ensures Conforming(p.base)
  {
    var f := "[" + pass + "]-" + name + ".json";
    assert f[|pass| + 1] == ']' && f[|pass| + 2] == '-';
    assert f[|f| - 5..] == ".json";
    Path(DbDir, f)
  }

  /** `String.prototype.split` with a one-character separator: the maximal
      separator-free pieces, always at least one. */
  function Split(s: string, sep: char): (parts: seq<string>)
    ensures |parts| >= 1
    ensures forall i :: 0 <= i < |parts| ==> sep !in parts[i]
    decreases |s|
  {
    if |s| == 0 then [""]
    else
      var rest := Split(s[1..], sep);
      if s[0] == sep then [""] + rest
      else [[s[0]] + rest[0]] + rest[1..]
  }

  /** `Array.prototype.join` with a one-character separator. */
  function Join(parts: seq<string>, sep: char): (s: string)
    decreases |parts|
  {
    if |parts| == 0 then ""
    else if |parts| == 1 then parts[0]
    else parts[0] + [sep] + Join(parts[1..], sep)
  }

  /** Joining the pieces of a split restores the string. */
  lemma {:induction false} JoinSplit(s: string, sep: char)
    ensures Join(Split(s, sep), sep) == s
    decreases |s|
  {
    if |s| > 0 {
      var rest := Split(s[1..], sep);
      JoinSplit(s[1..], sep);
      if s[0] == sep {
        assert Join([""] + rest, sep) == "" + [sep] + Join(rest, sep);
      } else if |rest| > 1 {
        var parts := [[s[0]] + rest[0]] + rest[1..];
        assert parts[1..] == rest[1..];
        assert Join(rest, sep) == rest[0] + [sep] + Join(rest[1..], sep);
      }
    }
  }

  /** Splitting at a first separator preceded by the separator-free `a`. */
  lemma {:induction false} SplitAfter(a: string, sep: char, b: string)
    requires sep !in a
    ensures Split(a + [sep] + b, sep) == [a] + Split(b, sep)
    decreases |a|
  {
    var s := a + [sep] + b;
    if |a| == 0 {
      assert s[1..] == b;
    } else {
      assert s[1..] == a[1..] + [sep] + b;
      SplitAfter(a[1..], sep, b);
      assert [a[0]] + a[1..] == a;
    }
  }

  /** `replace(/(\[|\])/g, "")`: the string without its brackets. */
  function StripBrackets(s: string): (r: string)
    ensures '[' !in r && ']' !in r
    ensures forall c :: c in r ==> c in s
    decreases |s|
  {
    if |s| == 0 then ""
    else (if s[0] == '[' || s[0] == ']' then "" else [s[0]]) + StripBrackets(s[1..])
  }

  lemma {:induction false} StripBracketsConcat(a: string, b: string)
    ensures StripBrackets(a + b) == StripBrackets(a) + StripBrackets(b)
    decreases |a|
  {
    if |a| > 0 {
      assert (a + b)[1..] == a[1..] + b;
      StripBracketsConcat(a[1..], b);
    } else {
      assert a + b == b;
    }
  }

  lemma {:induction false} StripBracketsNone(s: string)
    requires '[' !in s && ']' !in s
    ensures StripBrackets(s) == s
    decreases |s|
  {
    if |s| > 0 {
      StripBracketsNone(s[1..]);
      assert [s[0]] + s[1..] == s;
    }
  }

  /** `pat` occurs somewhere in `s`. */
  predicate HasSubstring(s: string, pat: string)
    decreases |s|
  {
    (|pat| <= |s| && s[..|pat|] == pat) || (|s| > 0 && HasSubstring(s[1..], pat))
  }

  /** A string without `.` contains no pattern that starts with `.`. */
  lemma {:induction false} NoDotNoSubstring(s: string, pat: string)
    requires '.' !in s && |pat| > 0 && pat[0] == '.'
    ensures !HasSubstring(s, pat)
    decreases |s|
  {
    if |pat| <= |s| {
      assert s[..|pat|][0] == s[0];
    }
    if |s| > 0 {
      NoDotNoSubstring(s[1..], pat);
    }
  }

  /** `replace(pat, "")` with a string pattern: drops the first occurrence of `pat` only. */
  function RemoveFirst(s: string, pat: string): (r: string)
    decreases |s|
  {
    if |pat| <= |s| && s[..|pat|] == pat then s[|pat|..]
    else if |s| == 0 then s
    else [s[0]] + RemoveFirst(s[1..], pat)
  }

  /** Removing the first `.json` from `name + ".json"` yields `name` when
      `name` itself holds no `.json`: no occurrence can straddle the border,
      since `.` does not recur in `.json`. */
  lemma {:induction false} RemoveFirstJsonSuffix(name: string)
    requires !HasSubstring(name, ".json")
    ensures RemoveFirst(name + ".json", ".json") == name
    decreases |name|
  {
    var s := name + ".json";
    if |name| > 0 {
      assert s[..5] != ".json" by {
        if |name| >= 5 {
          assert name[..5] == s[..5];
        } else {
          assert s[..5][|name|] == '.' != ".json"[|name|];
        }
      }
      assert s[1..] == name[1..] + ".json";
      RemoveFirstJsonSuffix(name[1..]);
      assert [name[0]] + name[1..] == name;
    }
  }

  /** The parse of a directory entry as the source writes it: split the file
      name at every `-`; the first piece without brackets is the credential;
      the other pieces rejoined, minus the first `.json`, are the name. The
      credential it yields never holds a `-`, whatever was formatted. */
  function ParseAsWritten(fileName: string): (id: DbIdentity)
    ensures '-' !in id.pass && '[' !in id.pass && ']' !in id.pass
  {
    var parts := Split(fileName, '-');
    DbIdentity(StripBrackets(parts[0]), RemoveFirst(Join(parts[1..], '-'), ".json"))
  }

  /** After one character that does not start `pat`, the first `pat` is removed. */
  lemma RemoveFirstAfterChar(c: char, pat: string, rest: string)
    requires |pat| > 0 && c != pat[0]
    ensures RemoveFirst([c] + pat + rest, pat) == [c] + rest
  {
    var s := [c] + pat + rest;
    var t := s[1..];
    assert t == pat + rest;
    assert t[..|pat|] == pat && t[|pat|..] == rest;
    assert RemoveFirst(t, pat) == rest;
    assert s[..|pat|] != pat by {
      assert s[..|pat|][0] == c;
    }
    assert RemoveFirst(s, pat) == [s[0]] + RemoveFirst(t, pat);
  }

  /** The as-written parse of a name whose first `-` follows `head`. */
  lemma ParseAsWrittenAt(head: string, rest: string)
    requires '-' !in head
    ensures ParseAsWritten(head + ['-'] + rest) == DbIdentity(StripBrackets(head), RemoveFirst(rest, ".json"))
  {
    SplitAfter(head, '-', rest);
    var parts := Split(head + ['-'] + rest, '-');
    assert parts[0] == head && parts[1..] == Split(rest, '-');
    JoinSplit(rest, '-');
  }

  /** `[` + `s` + `]` without brackets is `s`, when `s` has none. */
  lemma StripBracketed(s: string)
    requires '[' !in s && ']' !in s
    ensures StripBrackets("[" + s + "]") == s
  {
    StripBracketsConcat("[", s + "]");
    StripBracketsConcat(s, "]");
    StripBracketsNone(s);
    assert "[" + s + "]" == "[" + (s + "]");
  }

  /** A credential without `-`, `[` or `]` and a name without `.json`. */
  predicate SafeIdentity(pass: string, name: string)
  {
    '-' !in pass && '[' !in pass && ']' !in pass && !HasSubstring(name, ".json")
  }

  /** `fileName` is the formatted name of some safe identity. */
  ghost predicate SafeFileName(fileName: string)
  {
    exists pass, name :: SafeIdentity(pass, name) && FormatDbName(pass, name).base == fileName
  }

  /** The as-written parse inverts `formatDBName` for a safe identity; names
      may contain `-`. These conditions suffice, and are not necessary. */
  lemma AsWrittenRoundTrip(pass: string, name: string)
    requires SafeIdentity(pass, name)
    ensures ParseAsWritten(FormatDbName(pass, name).base) == DbIdentity(pass, name)
  {
    var head := "[" + pass + "]";
    assert FormatDbName(pass, name).base == head + ['-'] + (name + ".json");
    ParseAsWrittenAt(head, name + ".json");
    RemoveFirstJsonSuffix(name);
    StripBracketed(pass);
  }

  /** A credential containing `-` comes back cut at its first `-`, with the
      rest glued onto the name. */
  lemma AsWrittenDashInPass()
    ensures ParseAsWritten(FormatDbName("a-b", "c").base) == DbIdentity("a", "b]-c")
  {
    assert FormatDbName("a-b", "c").base == "[a" + ['-'] + ("b]-c" + ".json");
    ParseAsWrittenAt("[a", "b]-c" + ".json");
    assert StripBrackets("[a") == "a" by {
      StripBracketsConcat("[", "a");
      StripBracketsNone("a");
    }
    NoDotNoSubstring("b]-c", ".json");
    RemoveFirstJsonSuffix("b]-c");
  }

  /** A name containing `.json` loses that occurrence instead of the extension. */
  lemma AsWrittenJsonInName()
    ensures ParseAsWritten(FormatDbName("p", "x.jsonl").base) == DbIdentity("p", "xl.json")
  {
    assert FormatDbName("p", "x.jsonl").base == "[p]" + ['-'] + "x.jsonl.json";
    ParseAsWrittenAt("[p]", "x.jsonl.json");
    StripBracketed("p");
    RemoveFirstInnerJson();
  }

  lemma RemoveFirstInnerJson()
    ensures RemoveFirst("x.jsonl.json", ".json") == "xl.json"
  {
    RemoveFirstAfterChar('x', ".json", "l.json");
  }

  /** The index of the first `]-` at or after `from`, or `|s|` when there is none. */
  function FindCloser(s: string, from: nat): (j: nat)
    requires from <= |s|
    ensures from <= j <= |s|
    ensures j < |s| ==> j + 1 < |s| && s[j] == ']' && s[j + 1] == '-'
    ensures forall k :: from <= k < j && k + 1 < |s| ==> !(s[k] == ']' && s[k + 1] == '-')
    decreases |s| - from
  {
    if from + 1 >= |s| then |s|
    else if s[from] == ']' && s[from + 1] == '-' then from
    else FindCloser(s, from + 1)
  }

  /** The file name has the shape `[<pass>]-<name>.json`, with the first `]-`
      closing the credential. */
  predicate Conforming(fileName: string)
  {
    |fileName| >= 1 && fileName[0] == '[' &&
    var j := FindCloser(fileName, 1);
    j + 7 <= |fileName| && fileName[|fileName| - 5..] == ".json"
  }

  /** The parse as evidently intended: the credential is the bracketed prefix
      up to the first `]-`, and the name is the rest without the trailing
      `.json`. A name of another shape is parsed as the source does. The
      credential it reads from a conforming name holds no `]-`. */
  function ParseDbFileName(fileName: string): (id: DbIdentity)
    ensures Conforming(fileName) ==> NoCloser(id.pass)
  {
    if Conforming(fileName) then
      var j := FindCloser(fileName, 1);
      DbIdentity(fileName[1..j], fileName[j + 2..|fileName| - 5])
    else ParseAsWritten(fileName)
  }

  /** `pass` holds no `]` directly followed by `-`. */
  predicate NoCloser(pass: string)
  {
    forall k :: 0 <= k < |pass| - 1 ==> !(pass[k] == ']' && pass[k + 1] == '-')
  }

  /** The corrected parse inverts `formatDBName` for every name and every
      credential without `]-`, including credentials containing `-`. */
  lemma FormatThenParse(pass: string, name: string)
    requires NoCloser(pass)
    ensures ParseDbFileName(FormatDbName(pass, name).base) == DbIdentity(pass, name)
  {
    var f := FormatDbName(pass, name).base;
    var c := |pass| + 1;
    assert f[c] == ']' && f[c + 1] == '-';
    var j := FindCloser(f, 1);
    assert j == c;
    assert f[|f| - 5..] == ".json";
    assert Conforming(f);
    assert f[1..j] == pass;
    assert f[j + 2..|f| - 5] == name;
  }

  /** Every conforming file name is the formatted name of its parse, so a
      database found on disk is saved back to the file it came from. */
  lemma ParseThenFormat(fileName: string)
    requires Conforming(fileName)
    ensures var id := ParseDbFileName(fileName);
            FormatDbName(id.pass, id.name) == Path(DbDir, fileName)
  {
    var j := FindCloser(fileName, 1);
    var n := |fileName|;
    assert fileName == fileName[..1] + fileName[1..j] + fileName[j..j + 2] + fileName[j + 2..n - 5] + fileName[n - 5..];
    assert fileName[..1] == "[";
    assert fileName[j..j + 2] == "]-";
  }

  /** For the file names the round trip of the source covers, the corrected
      parse agrees with the as-written one. */
  lemma ParsersAgree(pass: string, name: string)
    requires SafeIdentity(pass, name)
    ensures ParseDbFileName(FormatDbName(pass, name).base) == ParseAsWritten(FormatDbName(pass, name).base)
  {
    AsWrittenRoundTrip(pass, name);
    FormatThenParse(pass, name);
  }

  /** Two different identities can share one file: `formatDBName` is not injective. */
  lemma FormatCollision()
    ensures DbIdentity("a", "b]-c") != DbIdentity("a]-b", "c")
    ensures FormatDbName("a", "b]-c") == FormatDbName("a]-b", "c")
  {
  }

  /** The directory entry `[p1]-db-one.json` belongs to credential `p1` and
      database `db-one`. */
  lemma ParseExample()
    ensures ParseDbFileName(FormatDbName("p1", "db-one").base) == DbIdentity("p1", "db-one")
  {
    FormatThenParse("p1", "db-one");
  }

  /** The source's own parse gets the same entry right. */
  lemma ParseExampleAsWritten()
    ensures ParseAsWritten(FormatDbName("p1", "db-one").base) == DbIdentity("p1", "db-one")
  {
    NoDotNoSubstring("db-one", ".json");
    AsWrittenRoundTrip("p1", "db-one");
  }
}
