/** `ConjurPipe.validateSecretNames`: the variable name of a secret is the
    last `/`-segment of its identifier (its short name); the list is
    rejected when two short names coincide, and otherwise when a short
    name does not match the shell-variable pattern. */
module SecretNames {
  import opened Wrappers
  import opened Text
  import JsonString

  // ---------------------------------------------------------------------
  // Short names

  /** `key.split('/')[-1]`. */
  function ShortName(id: string): (r: string)
  {
    Last(Split(id, '/'))
  }

  /** The short name is the part of the identifier after its last `/`: a
      suffix containing no `/`, which is either the whole identifier or
      directly preceded by a `/`. */
  lemma ShortNameIsLastSegment(id: string)
    ensures var r := ShortName(id);
      && '/' !in r
      && |r| <= |id| && id[|id| - |r|..] == r
      && (|r| == |id| || id[|id| - |r| - 1] == '/')
  {
    var pieces := Split(id, '/');
    JoinSplit(id, '/');
    if |pieces| >= 2 {
      JoinLast(pieces, '/');
    }
  }

  /** Truncating a short name again changes nothing (the second
      `split('/')[-1]` in the validation loop is a no-op). */
  lemma ShortNameIdempotent(id: string)
    ensures ShortName(ShortName(id)) == ShortName(id)
  {
    SplitNoSep(ShortName(id), '/');
  }

  /** An identifier without `/` is its own short name; with a path in
      front, the short name is what follows the last `/`. */
  lemma ShortNameOfPath(path: string, name: string)
    requires '/' !in name
    ensures ShortName(name) == name
    ensures ShortName(path + "/" + name) == name
  {
    SplitNoSep(name, '/');
    SplitConcat(path, name, '/');
  }

  /** `[key.split('/')[-1] for key in secretNames]`. */
  function ShortNames(ids: seq<string>): (keys: seq<string>)
  {
    seq(|ids|, i requires 0 <= i < |ids| => ShortName(ids[i]))
  }

  // ---------------------------------------------------------------------
  // The name pattern `^[a-zA-Z_][a-zA-Z0-9_]*$`

  predicate IsNameStart(c: char)
  {
    'a' <= c <= 'z' || 'A' <= c <= 'Z' || c == '_'
  }

  predicate IsNameChar(c: char)
  {
    IsNameStart(c) || '0' <= c <= '9'
  }

  /** What the pattern is meant to accept: a non-empty shell variable name. */
  predicate IsShellName(s: string)
  {
    |s| >= 1 && IsNameStart(s[0]) && forall i :: 1 <= i < |s| ==> IsNameChar(s[i])
  }

  /** Where the greedy `[a-zA-Z0-9_]*` starting at `i` stops. */
  function NameRunEnd(s: string, i: nat): (j: nat)
    requires i <= |s|
    ensures i <= j <= |s|
    ensures forall k :: i <= k < j ==> IsNameChar(s[k])
    ensures j < |s| ==> !IsNameChar(s[j])
    decreases |s| - i
  {
    if i == |s| || !IsNameChar(s[i]) then i else NameRunEnd(s, i + 1)
  }

  /** Python's `$` (without MULTILINE) matches at the end of the string
      and also just before a newline that is the last character. */
  predicate DollarMatchesAt(s: string, j: nat)
  {
    j == |s| || (j == |s| - 1 && s[j] == '\n')
  }

  /** `re.compile("^[a-zA-Z_][a-zA-Z0-9_]*$").match(s)` succeeds. The
      greedy run never needs to give characters back: a shorter run stops
      before a name character, where `$` cannot match. */
  predicate MatchesNamePattern(s: string)
  {
    |s| >= 1 && IsNameStart(s[0]) && DollarMatchesAt(s, NameRunEnd(s, 1))
  }

  /** The pattern accepts exactly the shell variable names, and those
      names followed by one newline. */
  lemma MatchesNamePatternIff(s: string)
    ensures MatchesNamePattern(s) <==>
      IsShellName(s) || (|s| >= 2 && s[|s| - 1] == '\n' && IsShellName(s[..|s| - 1]))
  {
    if |s| >= 1 {
      var j := NameRunEnd(s, 1);
      assert IsShellName(s) <==> IsNameStart(s[0]) && j == |s|;
      if |s| >= 2 {
        var t := s[..|s| - 1];
        assert forall k :: 0 <= k < |t| ==> t[k] == s[k];
        assert s[|s| - 1] == '\n' && IsShellName(t) <==>
          IsNameStart(s[0]) && j == |s| - 1 && s[|s| - 1] == '\n';
      }
    }
  }

  // ---------------------------------------------------------------------
  // Validation

  /** The two `ValueError`s that `validateSecretNames` raises. The second
      carries the offending short name as `json.dumps` quotes it. */
  datatype ValidationError = DuplicateSecretName | UnsupportedSecretName(quotedName: string)

  /** The text of the raised error. */
  function ErrorMessage(e: ValidationError): (r: string)
  {
    match e
    case DuplicateSecretName =>
      "Duplicate secret names found in secrets list. The final portion of the key must be unique."
    case UnsupportedSecretName(q) =>
      "Unsupported secret name " + q
      + ": variable names can only include alphanumerics and underscores, with first char being a non-digit"
  }

  /** The unsupported-name message starts with `Unsupported secret name `
      and the quoted name. */
  lemma ErrorMessageQuotes(q: string)
    ensures var m := ErrorMessage(UnsupportedSecretName(q));
      var p := "Unsupported secret name " + q;
      |p| <= |m| && m[..|p|] == p
  {
    PrefixOfAppend("Unsupported secret name " + q,
      ": variable names can only include alphanumerics and underscores, with first char being a non-digit");
  }

  lemma PrefixOfAppend(p: string, rest: string)
    ensures (p + rest)[..|p|] == p
  {
  }

  /** `set(keys)`. */
  function Elements(keys: seq<string>): (r: set<string>)
  {
    set k | k in keys
  }

  /** No two positions hold the same name. */
  predicate Distinct(keys: seq<string>)
  {
    forall i, j :: 0 <= i < j < |keys| ==> keys[i] != keys[j]
  }

  /** `len(keys) == len(set(keys))` holds exactly when the names are
      pairwise distinct. */
  lemma {:induction false} DistinctIffNoSetLoss(keys: seq<string>)
    ensures |Elements(keys)| <= |keys|
    ensures |Elements(keys)| == |keys| <==> Distinct(keys)
  {
    if |keys| > 0 {
      var rest := keys[1..];
      DistinctIffNoSetLoss(rest);
      ElementsCons(keys);
      DistinctCons(keys);
      if keys[0] in rest {
        assert Elements(keys) == Elements(rest);
      } else {
        assert keys[0] !in Elements(rest);
      }
    }
  }

  lemma ElementsCons(keys: seq<string>)
    requires |keys| > 0
    ensures Elements(keys) == {keys[0]} + Elements(keys[1..])
  {
    assert forall k :: k in keys <==> k == keys[0] || k in keys[1..] by {
      assert keys == [keys[0]] + keys[1..];
    }
  }

  lemma DistinctCons(keys: seq<string>)
    requires |keys| > 0
    ensures Distinct(keys) <==> keys[0] !in keys[1..] && Distinct(keys[1..])
  {
    var rest := keys[1..];
    if keys[0] in rest {
      var j :| 0 <= j < |rest| && rest[j] == keys[0];
      assert keys[j + 1] == keys[0];
    } else if Distinct(rest) {
      forall i, j | 0 <= i < j < |keys| ensures keys[i] != keys[j] {
        if i > 0 {
          assert keys[i] == rest[i - 1] && keys[j] == rest[j - 1];
        } else {
          assert keys[j] == rest[j - 1];
        }
      }
    } else {
      var i, j :| 0 <= i < j < |rest| && rest[i] == rest[j];
      assert keys[i + 1] == keys[j + 1];
    }
  }

  /** The loop over the short names: each is truncated again and matched
      against the pattern; the first that does not match is reported. */
  function CheckNames(keys: seq<string>): (r: Result<(), ValidationError>)
    ensures r.Success? <==> forall i :: 0 <= i < |keys| ==> MatchesNamePattern(ShortName(keys[i]))
    ensures r.Failure? ==> r.error.UnsupportedSecretName?
    ensures r.Failure? ==> exists i :: (0 <= i < |keys| && FirstMismatch(keys, i)
      && r.error == UnsupportedSecretName(JsonString.Dumps(ShortName(keys[i]))))
  {
    if |keys| == 0 then Success(())
    else
      var truncated := ShortName(keys[0]);
      if !MatchesNamePattern(truncated) then
        assert FirstMismatch(keys, 0);
        Failure(UnsupportedSecretName(JsonString.Dumps(truncated)))
      else
        var r := CheckNames(keys[1..]);
        assert r.Failure? ==> exists i :: (0 <= i < |keys[1..]| && FirstMismatch(keys[1..], i)
          && r.error == UnsupportedSecretName(JsonString.Dumps(ShortName(keys[1..][i]))));
        assert forall i :: 0 <= i < |keys[1..]| && FirstMismatch(keys[1..], i) ==> FirstMismatch(keys, i + 1);
        r
  }

  /** Position `i` is the first whose (re-truncated) name fails the pattern. */
  predicate FirstMismatch(keys: seq<string>, i: int)
    requires 0 <= i < |keys|
  {
    !MatchesNamePattern(ShortName(keys[i]))
    && forall j :: 0 <= j < i ==> MatchesNamePattern(ShortName(keys[j]))
  }

  /** `ConjurPipe.validateSecretNames`: `Success` where the source returns,
      `Failure` where it raises. */
  function Validate(ids: seq<string>): (r: Result<(), ValidationError>)
  {
    var keys := ShortNames(ids);
    if |keys| != |Elements(keys)| then Failure(DuplicateSecretName)
    else CheckNames(keys)
  }

  /** Validation reports duplicates exactly when two identifiers, in
      either order, share a short name. */
  lemma ValidateDuplicates(ids: seq<string>)
    ensures Validate(ids) == Failure(DuplicateSecretName) <==>
      exists i, j :: 0 <= i < j < |ids| && ShortName(ids[i]) == ShortName(ids[j])
  {
    var keys := ShortNames(ids);
    DistinctIffNoSetLoss(keys);
    assert Validate(ids) == Failure(DuplicateSecretName) <==> !Distinct(keys);
    assert forall i :: 0 <= i < |ids| ==> keys[i] == ShortName(ids[i]);
  }

  /** Validation succeeds exactly when the short names are pairwise
      distinct and each matches the name pattern. */
  lemma ValidateSucceeds(ids: seq<string>)
    ensures Validate(ids).Success? <==>
      && Distinct(ShortNames(ids))
      && forall i :: 0 <= i < |ids| ==> MatchesNamePattern(ShortName(ids[i]))
  {
    var keys := ShortNames(ids);
    DistinctIffNoSetLoss(keys);
    forall i | 0 <= i < |ids| ensures ShortName(keys[i]) == ShortName(ids[i]) {
      ShortNameIdempotent(ids[i]);
    }
  }

  /** When the names are distinct and one fails the pattern, the error
      quotes the first short name that fails, with `json.dumps`. */
  lemma ValidateReportsFirstInvalid(ids: seq<string>)
    requires Validate(ids).Failure? && Validate(ids).error.UnsupportedSecretName?
    ensures Distinct(ShortNames(ids))
    ensures exists i :: (0 <= i < |ids|
      && !MatchesNamePattern(ShortName(ids[i]))
      && (forall j :: 0 <= j < i ==> MatchesNamePattern(ShortName(ids[j])))
      && Validate(ids).error.quotedName == JsonString.Dumps(ShortName(ids[i])))
  {
    var keys := ShortNames(ids);
    DistinctIffNoSetLoss(keys);
    var i :| 0 <= i < |keys| && FirstMismatch(keys, i)
      && Validate(ids).error == UnsupportedSecretName(JsonString.Dumps(ShortName(keys[i])));
    forall j | 0 <= j <= i ensures ShortName(keys[j]) == ShortName(ids[j]) {
      ShortNameIdempotent(ids[j]);
    }
  }

  /** Whether validation succeeds, and whether it reports duplicates, does
      not depend on the order of the identifiers. */
  lemma ValidateOrderIndependent(ids: seq<string>, ids': seq<string>)
    requires multiset(ids) == multiset(ids')
    ensures Validate(ids).Success? <==> Validate(ids').Success?
    ensures Validate(ids) == Failure(DuplicateSecretName) <==> Validate(ids') == Failure(DuplicateSecretName)
  {
    assert |ids| == |multiset(ids)| == |ids'|;
    ShortNameElements(ids);
    ShortNameElements(ids');
    assert forall x :: x in ids <==> x in ids' by {
      forall x ensures x in ids <==> x in ids' {
        assert x in ids <==> x in multiset(ids);
        assert x in ids' <==> x in multiset(ids');
      }
    }
    assert Elements(ShortNames(ids)) == Elements(ShortNames(ids'));
    ValidateSucceeds(ids);
    ValidateSucceeds(ids');
    DistinctIffNoSetLoss(ShortNames(ids));
    DistinctIffNoSetLoss(ShortNames(ids'));
    assert (forall i :: 0 <= i < |ids| ==> MatchesNamePattern(ShortName(ids[i])))
       <==> (forall x :: x in ids ==> MatchesNamePattern(ShortName(x)));
    assert (forall i :: 0 <= i < |ids'| ==> MatchesNamePattern(ShortName(ids'[i])))
       <==> (forall x :: x in ids' ==> MatchesNamePattern(ShortName(x)));
  }

  lemma ShortNameElements(ids: seq<string>)
    ensures Elements(ShortNames(ids)) == set x | x in ids :: ShortName(x)
  {
    var keys := ShortNames(ids);
    forall k | k in Elements(keys) ensures k in set x | x in ids :: ShortName(x) {
      var i :| 0 <= i < |keys| && keys[i] == k;
      assert ids[i] in ids;
    }
    forall k | k in set x | x in ids :: ShortName(x) ensures k in Elements(keys) {
      var x :| x in ids && ShortName(x) == k;
      var i :| 0 <= i < |ids| && ids[i] == x;
      assert keys[i] == k;
    }
  }

  // ---------------------------------------------------------------------
  // The cases the tests exercise

  /** A single identifier without `/` whose name fails the pattern is
      rejected with the error quoting it as `json.dumps` does. */
  lemma RejectsSingleName(name: string)
    requires '/' !in name && !MatchesNamePattern(name)
    ensures Validate([name]) == Failure(UnsupportedSecretName(JsonString.Dumps(name)))
  {
    ShortNameOfPath("", name);
    var keys := ShortNames([name]);
    assert keys == [name];
    assert Elements(keys) == {name};
  }

  /** A single identifier without `/` is accepted exactly when its name
      matches the pattern. */
  lemma AcceptsSingleName(name: string)
    requires '/' !in name
    ensures Validate([name]).Success? <==> MatchesNamePattern(name)
  {
    ShortNameOfPath("", name);
    var keys := ShortNames([name]);
    assert keys == [name];
    assert Elements(keys) == {name};
  }

  // The names the invalid-name test expects to be rejected all fail the
  // pattern, three per lemma.

  lemma TestNamesWithSpacesFail()
    ensures !MatchesNamePattern("contains spaces")
    ensures !MatchesNamePattern("trailing_space ")
    ensures !MatchesNamePattern(" leading_space")
  {
    StopsAt("contains spaces", 8);
    StopsAt("trailing_space ", 14);
  }

  lemma TestNamesWithSymbolsFail()
    ensures !MatchesNamePattern("quote\"char\"")
    ensures !MatchesNamePattern("<special>chars")
    ensures !MatchesNamePattern("equal=sign")
  {
    StopsAt("quote\"char\"", 5);
    StopsAt("equal=sign", 5);
  }

  lemma TestNamesWithSignsFail()
    ensures !MatchesNamePattern("dollar$sign")
    ensures !MatchesNamePattern("hypen-sign")
    ensures !MatchesNamePattern("8numeric")
  {
    StopsAt("dollar$sign", 6);
    StopsAt("hypen-sign", 5);
  }

  /** A character at `k` that is neither a name character nor a final
      newline, after name characters only, makes the pattern fail. */
  lemma StopsAt(s: string, k: nat)
    requires 1 <= k < |s| && !IsNameChar(s[k]) && (k == |s| - 1 ==> s[k] != '\n')
    requires forall i :: 1 <= i < k ==> IsNameChar(s[i])
    ensures !MatchesNamePattern(s)
  {
    assert NameRunEnd(s, 1) == k;
  }

  /** Names that the pattern accepts. */
  lemma TestNamesMatchPattern()
    ensures MatchesNamePattern("secret1")
    ensures MatchesNamePattern("_x")
    ensures MatchesNamePattern("A_B2")
    ensures MatchesNamePattern("secret2")
  {
    MatchesNamePatternIff("secret2");
    MatchesNamePatternIff("secret1");
    MatchesNamePatternIff("_x");
    MatchesNamePatternIff("A_B2");
  }

  /** Two identifiers that end in the same name under different paths
      are rejected as duplicates, in either order (the test case
      `['path/secret1', 'other/path/secret1']`). */
  lemma DuplicateAcrossPaths(path1: string, path2: string, name: string)
    requires '/' !in name
    ensures Validate([path1 + "/" + name, path2 + "/" + name]) == Failure(DuplicateSecretName)
    ensures Validate([path2 + "/" + name, path1 + "/" + name]) == Failure(DuplicateSecretName)
  {
    ShortNameOfPath(path1, name);
    ShortNameOfPath(path2, name);
    var ids, ids' := [path1 + "/" + name, path2 + "/" + name], [path2 + "/" + name, path1 + "/" + name];
    ValidateDuplicates(ids);
    assert ShortName(ids[0]) == ShortName(ids[1]);
    ValidateDuplicates(ids');
    assert ShortName(ids'[0]) == ShortName(ids'[1]);
  }

  /** Distinct valid names under any paths pass (the test case
      `['path/secret1', 'other/path/secret2']`). */
  lemma DistinctNamesAcrossPaths(path1: string, name1: string, path2: string, name2: string)
    requires '/' !in name1 && '/' !in name2 && name1 != name2
    requires MatchesNamePattern(name1) && MatchesNamePattern(name2)
    ensures Validate([path1 + "/" + name1, path2 + "/" + name2]).Success?
  {
    ShortNameOfPath(path1, name1);
    ShortNameOfPath(path2, name2);
    ValidateSucceeds([path1 + "/" + name1, path2 + "/" + name2]);
  }

  /** The identifiers of the duplicate test. */
  lemma DuplicatePathsExample()
    ensures Validate(["path" + "/" + "secret1", "other/path" + "/" + "secret1"]) == Failure(DuplicateSecretName)
  {
    DuplicateAcrossPaths("path", "other/path", "secret1");
  }

  /** The identifiers of the fetch test. */
  lemma DistinctPathsExample()
    ensures Validate(["path" + "/" + "secret1", "other/path" + "/" + "secret2"]).Success?
  {
    TestNamesMatchPattern();
    DistinctNamesAcrossPaths("path", "secret1", "other/path", "secret2");
  }

  // ---------------------------------------------------------------------
  // The trailing newline that `$` lets through

  /** As written, a shell variable name followed by one newline passes
      validation, although it is not a shell variable name itself. */
  lemma TrailingNewlineAccepted(name: string)
    requires IsShellName(name)
    ensures Validate([name + "\n"]).Success?
    ensures !IsShellName(name + "\n")
    ensures ShortName(name + "\n") == name + "\n"
  {
    var id := name + "\n";
    assert '/' !in id by {
      assert forall k :: 0 <= k < |name| ==> id[k] == name[k];
      assert !IsNameChar('/');
    }
    ShortNameOfPath("", id);
    assert id[..|id| - 1] == name;
    MatchesNamePatternIff(id);
    AcceptsSingleName(id);
    assert !IsNameChar(id[|id| - 1]);
  }

  /** The pattern check as intended (`re.fullmatch`, or `\Z` for `$`):
      only shell variable names pass. */
  function CheckShellNames(keys: seq<string>): (r: Result<(), ValidationError>)
    ensures r.Success? <==> forall i :: 0 <= i < |keys| ==> IsShellName(ShortName(keys[i]))
    ensures r.Failure? ==> r.error.UnsupportedSecretName?
    ensures r.Failure? ==> exists i :: (0 <= i < |keys| && FirstNonShellName(keys, i)
      && r.error == UnsupportedSecretName(JsonString.Dumps(ShortName(keys[i]))))
  {
    if |keys| == 0 then Success(())
    else
      var truncated := ShortName(keys[0]);
      if !IsShellName(truncated) then
        assert FirstNonShellName(keys, 0);
        Failure(UnsupportedSecretName(JsonString.Dumps(truncated)))
      else
        var r := CheckShellNames(keys[1..]);
        assert r.Failure? ==> exists i :: (0 <= i < |keys[1..]| && FirstNonShellName(keys[1..], i)
          && r.error == UnsupportedSecretName(JsonString.Dumps(ShortName(keys[1..][i]))));
        assert forall i :: 0 <= i < |keys[1..]| && FirstNonShellName(keys[1..], i) ==> FirstNonShellName(keys, i + 1);
        r
  }

  /** Position `i` is the first whose (re-truncated) name is not a shell
      variable name. */
  predicate FirstNonShellName(keys: seq<string>, i: int)
    requires 0 <= i < |keys|
  {
    !IsShellName(ShortName(keys[i]))
    && forall j :: 0 <= j < i ==> IsShellName(ShortName(keys[j]))
  }

  /** Validation with the intended pattern check. */
  function ValidateStrict(ids: seq<string>): (r: Result<(), ValidationError>)
  {
    var keys := ShortNames(ids);
    if |keys| != |Elements(keys)| then Failure(DuplicateSecretName)
    else CheckShellNames(keys)
  }

  /** The intended check passes exactly when the short names are pairwise
      distinct shell variable names; it is stricter than the check as
      written, and agrees with it unless a short name ends in a newline. */
  lemma ValidateStrictSucceeds(ids: seq<string>)
    ensures ValidateStrict(ids).Success? <==>
      && Distinct(ShortNames(ids))
      && forall i :: 0 <= i < |ids| ==> IsShellName(ShortName(ids[i]))
    ensures ValidateStrict(ids).Success? ==> Validate(ids).Success?
    ensures (forall i :: 0 <= i < |ids| ==> !EndsInNewline(ShortName(ids[i]))) ==>
      (ValidateStrict(ids).Success? <==> Validate(ids).Success?)
  {
    var keys := ShortNames(ids);
    DistinctIffNoSetLoss(keys);
    ValidateSucceeds(ids);
    forall i | 0 <= i < |ids|
      ensures ShortName(keys[i]) == ShortName(ids[i])
      ensures MatchesNamePattern(ShortName(ids[i])) <==>
        IsShellName(ShortName(ids[i])) || (EndsInNewline(ShortName(ids[i])) && IsShellName(ShortName(ids[i])[..|ShortName(ids[i])| - 1]))
    {
      ShortNameIdempotent(ids[i]);
      MatchesNamePatternIff(ShortName(ids[i]));
    }
  }

  /** With the intended check, an unsupported-name error means the short
      names were distinct, and it quotes the first short name that is not a
      shell variable name. */
  lemma ValidateStrictReportsFirstInvalid(ids: seq<string>)
    requires ValidateStrict(ids).Failure? && ValidateStrict(ids).error.UnsupportedSecretName?
    ensures Distinct(ShortNames(ids))
    ensures exists i :: (0 <= i < |ids|
      && !IsShellName(ShortName(ids[i]))
      && (forall j :: 0 <= j < i ==> IsShellName(ShortName(ids[j])))
      && ValidateStrict(ids).error.quotedName == JsonString.Dumps(ShortName(ids[i])))
  {
    var keys := ShortNames(ids);
    DistinctIffNoSetLoss(keys);
    var i :| 0 <= i < |keys| && FirstNonShellName(keys, i)
      && ValidateStrict(ids).error == UnsupportedSecretName(JsonString.Dumps(ShortName(keys[i])));
    forall j | 0 <= j <= i ensures ShortName(keys[j]) == ShortName(ids[j]) {
      ShortNameIdempotent(ids[j]);
    }
  }

  /** A list where the two checks differ: a shell variable name, then
      another followed by a newline. As written the list passes; the
      intended check rejects it and quotes the second name, newline
      included. */
  lemma NewlineNameInList(first: string, name: string)
    requires IsShellName(first) && IsShellName(name)
    ensures Validate([first, name + "\n"]).Success?
    ensures ValidateStrict([first, name + "\n"]) == Failure(UnsupportedSecretName(JsonString.Dumps(name + "\n")))
  {
    var ids := [first, name + "\n"];
    NewlineListNames(first, name);
    assert ShortNames(ids) == ids;
    DistinctIffNoSetLoss(ids);
    ValidateSucceeds(ids);
    assert FirstNonShellName(ids, 1);
  }

  /** The facts about the two names of `NewlineNameInList`. */
  lemma NewlineListNames(first: string, name: string)
    requires IsShellName(first) && IsShellName(name)
    ensures ShortName(first) == first && ShortName(name + "\n") == name + "\n"
    ensures first != name + "\n"
    ensures MatchesNamePattern(first) && MatchesNamePattern(name + "\n")
    ensures !IsShellName(name + "\n")
  {
    var id := name + "\n";
    TrailingNewlineAccepted(name);
    ShellNameNoSlash(first);
    ShortNameOfPath("", first);
    assert first != id by {
      assert id[|id| - 1] == '\n' && !IsNameChar('\n');
    }
    assert id[..|id| - 1] == name;
    MatchesNamePatternIff(first);
    MatchesNamePatternIff(id);
  }

  /** A shell variable name has no `/`, so it is its own short name. */
  lemma ShellNameNoSlash(s: string)
    requires IsShellName(s)
    ensures '/' !in s
  {
    forall k | 0 <= k < |s| ensures s[k] != '/' {
      assert IsNameChar(s[k]);
    }
  }

  predicate EndsInNewline(s: string)
  {
    |s| >= 2 && s[|s| - 1] == '\n'
  }

  /** Both validators report duplicates on the same lists. */
  lemma ValidateStrictDuplicates(ids: seq<string>)
    ensures ValidateStrict(ids) == Failure(DuplicateSecretName) <==> Validate(ids) == Failure(DuplicateSecretName)
  {
  }

  /** Unless some short name ends in a newline, the intended check gives
      exactly what the check as written gives, error included. */
  lemma ValidateStrictAgrees(ids: seq<string>)
    requires forall i :: 0 <= i < |ids| ==> !EndsInNewline(ShortName(ids[i]))
    ensures ValidateStrict(ids) == Validate(ids)
  {
    var keys := ShortNames(ids);
    forall i | 0 <= i < |keys| ensures ShortName(keys[i]) == ShortName(ids[i]) {
      ShortNameIdempotent(ids[i]);
    }
    CheckNamesAgree(keys);
  }

  lemma {:induction false} CheckNamesAgree(keys: seq<string>)
    requires forall i :: 0 <= i < |keys| ==> !EndsInNewline(ShortName(keys[i]))
    ensures CheckShellNames(keys) == CheckNames(keys)
  {
    if |keys| > 0 {
      var t := ShortName(keys[0]);
      assert !EndsInNewline(t);
      MatchesNamePatternIff(t);
      assert MatchesNamePattern(t) <==> IsShellName(t);
      CheckNamesAgree(keys[1..]);
    }
  }

  /** With the intended check, a single identifier without `/` that is not
      a shell variable name is rejected with its quoted name. */
  lemma StrictRejectsSingleName(name: string)
    requires '/' !in name && !IsShellName(name)
    ensures ValidateStrict([name]) == Failure(UnsupportedSecretName(JsonString.Dumps(name)))
  {
    ShortNameOfPath("", name);
    var keys := ShortNames([name]);
    assert keys == [name];
    assert Elements(keys) == {name};
  }

  /** With the intended check, distinct shell variable names under any
      paths pass. */
  lemma StrictDistinctNamesAcrossPaths(path1: string, name1: string, path2: string, name2: string)
    requires '/' !in name1 && '/' !in name2 && name1 != name2
    requires IsShellName(name1) && IsShellName(name2)
    ensures ValidateStrict([path1 + "/" + name1, path2 + "/" + name2]).Success?
  {
    ShortNameOfPath(path1, name1);
    ShortNameOfPath(path2, name2);
    ValidateStrictSucceeds([path1 + "/" + name1, path2 + "/" + name2]);
  }
}
