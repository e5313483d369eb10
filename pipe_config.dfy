/** The configuration record's secret list: `PipeConfig.secrets_to_list`
    turns the comma-separated `SECRETS` input into a list of identifiers. */
module PipeConfig {
  import opened Text

  /** `filter(None, pieces)`: the pieces in order, without the empty ones. */
  function RemoveEmpty(pieces: seq<string>): (r: seq<string>)
    ensures forall i :: 0 <= i < |r| ==> r[i] != ""
    ensures forall i :: 0 <= i < |r| ==> r[i] in pieces
    ensures |r| <= |pieces|
  {
    if |pieces| == 0 then []
    else
      var rest := RemoveEmpty(pieces[1..]);
      if pieces[0] == "" then rest else [pieces[0]] + rest
  }

  /** `PipeConfig.secrets_to_list`: split on `,` and drop the empty pieces. */
  function SecretsToList(secrets: string): (r: seq<string>)
    ensures forall i :: 0 <= i < |r| ==> r[i] != "" && ',' !in r[i]
  {
    RemoveEmpty(Split(secrets, ','))
  }

  /** `filter(None, ...)` keeps every non-empty piece as often as it
      occurs, and nothing else. */
  lemma {:induction false} RemoveEmptyCounts(pieces: seq<string>)
    ensures multiset(RemoveEmpty(pieces)) == multiset(pieces)["" := 0]
  {
    if |pieces| > 0 {
      RemoveEmptyCounts(pieces[1..]);
      assert pieces == [pieces[0]] + pieces[1..];
    }
  }

  /** An identifier is in the list exactly when it is a non-empty piece of
      the comma split. */
  lemma SecretsToListMembers(secrets: string, x: string)
    ensures x in SecretsToList(secrets) <==> x != "" && x in Split(secrets, ',')
  {
    var pieces := Split(secrets, ',');
    RemoveEmptyCounts(pieces);
    assert x in SecretsToList(secrets) <==> x in multiset(SecretsToList(secrets));
    assert x in pieces <==> x in multiset(pieces);
  }

  /** The empty input gives the empty list. */
  lemma EmptyInput()
    ensures SecretsToList("") == []
  {
  }

  /** A list of non-empty, comma-free identifiers survives being joined
      with commas and parsed again: parsing is the inverse of joining. */
  lemma {:induction false} SecretsToListOfJoin(ids: seq<string>)
    requires forall i :: 0 <= i < |ids| ==> ids[i] != "" && ',' !in ids[i]
    ensures SecretsToList(Join(ids, ',')) == ids
  {
    if |ids| >= 1 {
      SplitJoin(ids, ',');
      RemoveEmptyOfNonEmpty(ids);
    }
  }

  lemma {:induction false} RemoveEmptyOfNonEmpty(pieces: seq<string>)
    requires forall i :: 0 <= i < |pieces| ==> pieces[i] != ""
    ensures RemoveEmpty(pieces) == pieces
  {
    if |pieces| > 0 {
      RemoveEmptyOfNonEmpty(pieces[1..]);
    }
  }

  /** Empty pieces contribute nothing to the join: joining the result
      back with commas and dropping every comma loses no other character
      of the input, in order. */
  lemma {:induction false} SecretsToListKeepsCharacters(secrets: string)
    ensures Concat(SecretsToList(secrets)) == WithoutCommas(secrets)
  {
    var pieces := Split(secrets, ',');
    JoinSplit(secrets, ',');
    ConcatRemoveEmpty(pieces);
    ConcatIsJoinWithoutCommas(pieces);
  }

  /** `filter(None, ...)` distributes over concatenation of piece lists. */
  lemma {:induction false} RemoveEmptyAppend(p: seq<string>, q: seq<string>)
    ensures RemoveEmpty(p + q) == RemoveEmpty(p) + RemoveEmpty(q)
  {
    if |p| > 0 {
      RemoveEmptyAppend(p[1..], q);
      assert (p + q)[0] == p[0] && (p + q)[1..] == p[1..] + q;
    } else {
      assert p + q == q;
    }
  }

  /** The list of `a,b` is the list of `a` followed by the list of `b`:
      the identifiers keep the order in which they appear in the input. */
  lemma SecretsToListConcat(a: string, b: string)
    ensures SecretsToList(a + "," + b) == SecretsToList(a) + SecretsToList(b)
  {
    assert a + "," + b == a + [','] + b;
    SplitConcat(a, b, ',');
    RemoveEmptyAppend(Split(a, ','), Split(b, ','));
  }

  /** All characters of a list of strings, in order. */
  function Concat(ss: seq<string>): (r: string)
  {
    if |ss| == 0 then "" else ss[0] + Concat(ss[1..])
  }

  /** The input with every `,` removed. */
  function WithoutCommas(s: string): (r: string)
  {
    if |s| == 0 then ""
    else (if s[0] == ',' then "" else [s[0]]) + WithoutCommas(s[1..])
  }

  lemma {:induction false} ConcatRemoveEmpty(pieces: seq<string>)
    ensures Concat(RemoveEmpty(pieces)) == Concat(pieces)
  {
    if |pieces| > 0 {
      ConcatRemoveEmpty(pieces[1..]);
    }
  }

  lemma {:induction false} WithoutCommasAppend(a: string, b: string)
    ensures WithoutCommas(a + b) == WithoutCommas(a) + WithoutCommas(b)
    decreases |a|
  {
    if |a| > 0 {
      assert (a + b)[1..] == a[1..] + b;
      WithoutCommasAppend(a[1..], b);
    } else {
      assert a + b == b;
    }
  }

  lemma {:induction false} WithoutCommasNoComma(s: string)
    requires ',' !in s
    ensures WithoutCommas(s) == s
    decreases |s|
  {
    if |s| > 0 {
      assert ',' !in s[1..] by {
        forall i | 0 <= i < |s[1..]| ensures s[1..][i] != ',' {
          assert s[1..][i] == s[i + 1];
        }
      }
      WithoutCommasNoComma(s[1..]);
      assert s == [s[0]] + s[1..];
    }
  }

  lemma {:induction false} ConcatIsJoinWithoutCommas(pieces: seq<string>)
    requires forall i :: 0 <= i < |pieces| ==> ',' !in pieces[i]
    ensures Concat(pieces) == WithoutCommas(Join(pieces, ','))
  {
    if |pieces| == 1 {
      WithoutCommasNoComma(pieces[0]);
    } else if |pieces| > 1 {
      ConcatIsJoinWithoutCommas(pieces[1..]);
      WithoutCommasNoComma(pieces[0]);
      WithoutCommasAppend(pieces[0] + [','], Join(pieces[1..], ','));
      WithoutCommasAppend(pieces[0], [',']);
      assert WithoutCommas([',']) == "";
    }
  }

  /** The example of the configuration test: `"secret1,secret2"`. */
  lemma TwoSecrets()
    ensures SecretsToList("secret1" + "," + "secret2") == ["secret1", "secret2"]
  {
    var ids := ["secret1", "secret2"];
    assert Join(ids, ',') == "secret1" + "," + "secret2" by {
      assert ids[1..] == ["secret2"];
    }
    SecretsToListOfJoin(ids);
  }

  /** A single identifier is a list of one. */
  lemma SingleSecret()
    ensures SecretsToList("single_secret") == ["single_secret"]
  {
    SplitNoSep("single_secret", ',');
  }

  /** Empty pieces are dropped wherever they occur: `"a,,b,"` gives `["a", "b"]`. */
  lemma EmptyPiecesDropped()
    ensures SecretsToList("a,,b,") == ["a", "b"]
  {
    var pieces := ["a", "", "b"];
    assert Split("a,,b,", ',') == pieces + [""] by {
      assert "a,,b," == Terminated(pieces, ',');
      SplitTerminated(pieces, ',');
    }
    assert RemoveEmpty(pieces + [""]) == ["a", "b"];
  }
}
