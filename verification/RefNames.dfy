/** gitmesh-coordination: the names `validate_ref_name` accepts. */
module RefNames {
  import opened Prelude
  import opened RefModel

  /** A component of a name: not empty, no ".lock" at its end, no two dots in a row,
      and none of the characters Git refuses. */
  predicate PlainPart(part: string) {
    && part != [] && !EndsWith(part, ".lock")
    && (forall c :: c in part ==> c > ' ' && c !in "~^:?*[\\/")
    && NoDots(part)
  }

  predicate NoDots(s: string) {
    forall i :: 0 <= i < |s| - 1 ==> !(s[i] == '.' && s[i + 1] == '.')
  }

  lemma NoDotsExact(s: string)
    ensures NoDots(s) <==> !Contains(s, "..")
  {
    forall i | 0 <= i < |s| - 1 && s[i] == '.' && s[i + 1] == '.'
      ensures Contains(s, "..")
    {
      assert s[i..][..2] == "..";
    }
    if Contains(s, "..") {
      var i :| 0 <= i <= |s| && ".." <= s[i..];
      assert s[i..][0] == '.' && s[i..][1] == '.';
      assert s[i] == '.' && s[i + 1] == '.';
    }
  }

  lemma {:induction false} JoinSplit(s: string)
    ensures Join(Split(s, '/'), '/') == s
    ensures forall p :: p in Split(s, '/') ==> '/' !in p && forall c :: c in p ==> c in s
    ensures NoDots(s) ==> forall p :: p in Split(s, '/') ==> NoDots(p)
  {
    if s != [] {
      JoinSplit(s[1..]);
      var rest := Split(s[1..], '/');
      var parts := Split(s, '/');
      assert s == [s[0]] + s[1..];
      if s[0] == '/' {
        assert parts[1..] == rest && parts[0] == [];
        assert parts[0] + ['/'] + Join(rest, '/') == s;
      } else {
        assert parts[1..] == rest[1..] && parts[0] == [s[0]] + rest[0];
        assert rest[0] <= s[1..] by { FirstIsPrefix(s[1..]); }
        if |rest| > 1 {
          assert Join(rest, '/') == rest[0] + ['/'] + Join(rest[1..], '/');
        }
      }
      assert forall p :: p in parts ==> p in rest || p == parts[0];
    }
  }

  lemma {:induction false} FirstIsPrefix(s: string)
    ensures Split(s, '/')[0] <= s
  {
    if s != [] && s[0] != '/' {
      FirstIsPrefix(s[1..]);
      assert s == [s[0]] + s[1..];
    }
  }

  lemma {:induction false} JoinPlain(parts: seq<string>)
    requires parts != [] && forall p :: p in parts ==> PlainPart(p)
    ensures var s := Join(parts, '/');
            && s != [] && s[0] != '/' && s[|s| - 1] != '/' && NoDots(s)
            && forall c :: c in s ==> RefNameChar(c)
  {
    hide EndsWith;
    assert PlainPart(parts[0]) by { assert parts[0] in parts; }
    assert parts[0][0] in parts[0] && parts[0][|parts[0]| - 1] in parts[0];
    if |parts| == 1 {
      assert Join(parts, '/') == parts[0];
    } else {
      var p, rest := parts[0], Join(parts[1..], '/');
      assert forall x :: x in parts[1..] ==> x in parts;
      JoinPlain(parts[1..]);
      var s := p + ['/'] + rest;
      assert Join(parts, '/') == s && s[0] == p[0];
      forall i | 0 <= i < |s| - 1
        ensures !(s[i] == '.' && s[i + 1] == '.')
      {
        if i < |p| - 1 { assert s[i] == p[i] && s[i + 1] == p[i + 1]; }
        if i > |p| { assert s[i] == rest[i - |p| - 1] && s[i + 1] == rest[i - |p|]; }
      }
    }
  }

  /** A name is valid exactly when it is "refs" followed by one or more plain
      components, each after a slash. */
  lemma RefNameGrammar(value: string)
    ensures ValidRefName(value) <==>
            exists parts: seq<string> :: parts != [] && value == Join(["refs"] + parts, '/') && forall p :: p in parts ==> PlainPart(p)
  {
    hide Split, Join, EndsWith, Contains, PlainPart, NoDots;
    if ValidRefName(value) {
      var parts := ValidNameParts(value);
      assert value == Join(["refs"] + parts, '/');
    }
    if parts: seq<string> :| parts != [] && value == Join(["refs"] + parts, '/') && forall p :: p in parts ==> PlainPart(p) {
      PlainPartsValid(value, parts);
    }
  }

  lemma ValidNameParts(value: string) returns (parts: seq<string>)
    requires ValidRefName(value)
    ensures parts != [] && value == Join(["refs"] + parts, '/') && forall p :: p in parts ==> PlainPart(p)
  {
    hide Split, EndsWith, Contains, NoDots;
    var rest := value[5..];
    assert value == "refs" + ['/'] + rest;
    SplitCons("refs", '/', rest);
    JoinSplit(value);
    NoDotsExact(value);
    parts := Split(rest, '/');
    assert Split(value, '/') == ["refs"] + parts;
    assert forall p :: p in parts ==> p in Split(value, '/');
  }

  lemma PlainPartsValid(value: string, parts: seq<string>)
    requires parts != [] && value == Join(["refs"] + parts, '/') && forall p :: p in parts ==> PlainPart(p)
    ensures ValidRefName(value)
  {
    hide Split, Contains, NoDots;
    var all := ["refs"] + parts;
    assert all[1..] == parts;
    assert PlainPart("refs") by { RefsPlain(); }
    JoinPlain(all);
    NoDotsExact(value);
    assert value == "refs" + ['/'] + Join(parts, '/');
    SplitJoin(all, '/');
    assert value[..5] == "refs/";
  }

  lemma RefsPlain()
    ensures PlainPart("refs")
  {
    assert |"refs"| == 4;
  }

  /** A transaction id is one or more ASCII letters, digits, hyphens and underscores. */
  lemma TransactionIdGrammar(value: string)
    ensures ValidTransactionId(value) <==>
            value != [] && forall c :: c in value ==>
              c in "0123456789" || c in "abcdefghijklmnopqrstuvwxyz" || c in "ABCDEFGHIJKLMNOPQRSTUVWXYZ" || c in "-_"
  {
    forall c: char
      ensures TransactionChar(c) <==>
              c in "0123456789" || c in "abcdefghijklmnopqrstuvwxyz" || c in "ABCDEFGHIJKLMNOPQRSTUVWXYZ" || c in "-_"
    {
      CharRange(c, '0', "0123456789");
      CharRange(c, 'a', "abcdefghijklmnopqrstuvwxyz");
      CharRange(c, 'A', "ABCDEFGHIJKLMNOPQRSTUVWXYZ");
    }
  }
}
