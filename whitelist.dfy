/** The peer whitelist the backend reports, and the rule that decides which
    peer checkboxes start checked. */
module Whitelist {
  import opened JsString

  /** The `whitelist` member of the peers reply: absent (or null), an array
      of ids, or a string of ids separated by white space. */
  datatype Value = Missing | List(ids: seq<string>) | Text(s: string)

  /** The set the view builds from the whitelist (lines 113-114): an array
      is taken as it is, a non-empty string is trimmed and split on runs of
      white space, anything else gives the empty set. */
  function WhitelistSet(w: Value): (allow: set<string>)
    ensures w.Missing? ==> allow == {}
    ensures w.List? ==> forall id :: id in allow <==> id in w.ids
    ensures w.Text? ==> (allow == {} <==> w.s == [])
  {
    match w
    case Missing => {}
    case List(ids) => set id | id in ids
    case Text(s) =>
      if s == [] then {}
      else
        var tokens := SplitWhiteSpace(Trim(s));
        var r := set id | id in tokens;
        assert tokens[0] in r;
        r
  }

  /** Whether a peer's checkbox starts checked (line 243): every peer when
      the whitelist is empty, else exactly the listed ones. */
  predicate IsInitiallyChecked(allow: set<string>, id: string) {
    |allow| == 0 || id in allow
  }

  /** An empty whitelist checks every peer; a non-empty one checks exactly
      its members. */
  lemma CheckedRule(allow: set<string>, id: string)
    ensures allow == {} ==> IsInitiallyChecked(allow, id)
    ensures allow != {} ==> (IsInitiallyChecked(allow, id) <==> id in allow)
  {
    if allow != {} {
      assert |allow| != 0 by {
        var x :| x in allow;
        assert x in allow;
      }
    }
  }

  /** A string of white space only is not empty, so it yields the set that
      holds the empty id alone: no peer with a real id starts checked. */
  lemma BlankTextChecksNoPeer(s: string, id: string)
    requires s != [] && AllWhiteSpace(s)
    requires id != []
    ensures WhitelistSet(Text(s)) == {[]}
    ensures !IsInitiallyChecked(WhitelistSet(Text(s)), id)
  {
    TrimEmpty(s);
    assert SplitWhiteSpace([]) == [[]] by {
      assert WhiteSpaceIndex([]) == 0;
    }
  }

  /** The ids of a string that holds something other than white space are
      non-empty and hold no white space. */
  lemma TextIdsAreTokens(s: string)
    requires !AllWhiteSpace(s)
    ensures forall id | id in WhitelistSet(Text(s)) :: id != [] && NoWhiteSpace(id)
  {
    TrimEmpty(s);
    var t := Trim(s);
    SplitWhiteSpaceTrimmed(t);
    var tokens := SplitWhiteSpace(t);
    forall id | id in WhitelistSet(Text(s)) ensures id != [] && NoWhiteSpace(id) {
      var i :| 0 <= i < |tokens| && tokens[i] == id;
    }
  }

  /** Writing the ids as one string separated by spaces gives the same
      whitelist as giving them as an array. */
  lemma TextAgreesWithList(ids: seq<string>)
    requires |ids| >= 1
    requires forall i | 0 <= i < |ids| :: ids[i] != [] && NoWhiteSpace(ids[i])
    ensures WhitelistSet(Text(Join(ids, ' '))) == WhitelistSet(List(ids))
  {
    var s := Join(ids, ' ');
    assert forall i | 0 <= i < |ids| :: IsTrimmed(ids[i]) by {
      forall i | 0 <= i < |ids| ensures IsTrimmed(ids[i]) {
        assert !IsWhiteSpace(ids[i][0]) && !IsWhiteSpace(ids[i][|ids[i]| - 1]);
      }
    }
    JoinTrimmed(ids, ' ');
    TrimFixedPoint(s);
    SplitWhiteSpaceJoin(ids);
  }

  /** The same holds for any white-space layout: ids separated by runs of
      white space, with white space before and after, give the same
      whitelist as the array of those ids. */
  lemma TextAgreesWithListRuns(lead: string, ids: seq<string>, seps: seq<string>, trail: string)
    requires AllWhiteSpace(lead) && AllWhiteSpace(trail)
    requires |ids| == |seps| + 1
    requires forall i | 0 <= i < |ids| :: ids[i] != [] && NoWhiteSpace(ids[i])
    requires forall i | 0 <= i < |seps| :: seps[i] != [] && AllWhiteSpace(seps[i])
    ensures WhitelistSet(Text(lead + JoinRuns(ids, seps) + trail)) == WhitelistSet(List(ids))
  {
    var m := JoinRuns(ids, seps);
    JoinRunsTrimmed(ids, seps);
    TrimPadded(lead, m, trail);
    assert lead + m + trail != [] by {
      assert |lead + m + trail| >= |m| > 0;
    }
    SplitWhiteSpaceRuns(ids, seps);
  }
}
