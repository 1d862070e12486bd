/**
 * The forum tags the scripts wrap nation names in: `[nation]name[/nation]`,
 * written one after another (search/nationcollector.py:66,
 * cards/regioncardpop.py:86), and taken apart again by dropping the opening
 * tags and splitting at the closing ones (cards/regioncardpop.py:76).
 */
module NationTags {
  import opened Strings

  const Open := "[nation]"
  const Close := "[/nation]"

  /** One tagged name. */
  function Tag(nation: string): string {
    Open + nation + Close
  }

  /** `"".join(f"[nation]{n}[/nation]" for n in nations)`. */
  function Tagged(nations: seq<string>): string
    decreases |nations|
  {
    if nations == [] then "" else Tag(nations[0]) + Tagged(nations[1..])
  }

  /** The same names with the opening tags removed. */
  function Untagged(nations: seq<string>): string
    decreases |nations|
  {
    if nations == [] then "" else nations[0] + Close + Untagged(nations[1..])
  }

  /** A name without '[' holds no tag text. */
  predicate NoTagText(nation: string) {
    '[' !in nation
  }

  /** Tagging the names of two lists is tagging each list in turn. */
  lemma {:induction false} TaggedAppend(a: seq<string>, b: seq<string>)
    ensures Tagged(a + b) == Tagged(a) + Tagged(b)
    decreases |a|
  {
    if a == [] {
      assert a + b == b;
    } else {
      assert (a + b)[1..] == a[1..] + b;
      TaggedAppend(a[1..], b);
    }
  }

  /** Tagged names hold a newline only where a name does. */
  lemma {:induction false} TaggedNoNewline(nations: seq<string>)
    requires forall n <- nations :: '\n' !in n
    ensures '\n' !in Tagged(nations)
    decreases |nations|
  {
    if nations != [] {
      assert nations[0] in nations;
      assert forall n <- nations[1..] :: '\n' !in n;
      TaggedNoNewline(nations[1..]);
      assert '\n' !in Open && '\n' !in Close;
    }
  }

  /** The opening tag starts nowhere in a plain name followed by a closing
      tag: the only '[' there opens "[/", not "[n". */
  lemma OpenNotAfter(p: string, t: string)
    requires NoTagText(p)
    ensures forall j :: 0 <= j < |p + Close| ==> !OccursAt(p + Close + t, Open, j)
  {
    var s := p + Close + t;
    forall j | 0 <= j < |p + Close| ensures !OccursAt(s, Open, j) {
      if j + |Open| <= |s| {
        var w := s[j..j + |Open|];
        assert w[0] == s[j] && w[1] == s[j + 1];
        if j < |p| {
          assert s[j] == p[j];
        } else {
          assert s[j] == Close[j - |p|];
          assert j == |p| ==> s[j + 1] == Close[1];
        }
      }
    }
  }

  /** `replace("[nation]", "")` on tagged plain names leaves the names each
      followed by its closing tag, and goes on in what follows. */
  lemma {:induction false} ReplaceOpenTags(nations: seq<string>, t: string)
    requires forall n <- nations :: NoTagText(n)
    ensures Replace(Tagged(nations) + t, Open, "") == Untagged(nations) + Replace(t, Open, "")
    decreases |nations|
  {
    if nations != [] {
      var p := nations[0];
      var tail := nations[1..];
      assert nations[0] in nations && forall n <- tail :: NoTagText(n);
      assert Tagged(nations) == Tag(p) + Tagged(tail);
      assert Untagged(nations) == p + Close + Untagged(tail);
      ReplaceOpenTags(tail, t);
      var rest := Tagged(tail) + t;
      var done := Replace(t, Open, "");
      TagStep(p, Tagged(tail), t);
      ReplaceFront(Open, p + Close + rest, "");
      OpenNotAfter(p, rest);
      ReplaceSkip(p + Close, rest, Open, "");
      assert Replace(rest, Open, "") == Untagged(tail) + done;
      UntagStep(p, Untagged(tail), done);
      var whole := Tagged(nations) + t;
      assert whole == Open + (p + Close + rest);
      assert Replace(whole, Open, "") == "" + Replace(p + Close + rest, Open, "");
      assert "" + Replace(p + Close + rest, Open, "") == p + Close + (Untagged(tail) + done);
    } else {
      assert Tagged(nations) + t == t;
      assert Untagged(nations) + Replace(t, Open, "") == Replace(t, Open, "");
    }
  }

  lemma TagStep(p: string, tagged: string, t: string)
    ensures Open + p + Close + tagged + t == Open + (p + Close + (tagged + t))
    ensures p + Close + (tagged + t) == (p + Close) + (tagged + t)
  {
  }

  lemma UntagStep(p: string, untagged: string, done: string)
    ensures p + Close + (untagged + done) == p + Close + untagged + done
  {
  }

  /** Splitting at the closing tags gives the plain names back, then the
      pieces of what follows. */
  lemma {:induction false} SplitCloseTags(nations: seq<string>, t: string)
    requires forall n <- nations :: NoTagText(n)
    ensures Split(Untagged(nations) + t, Close) == nations + Split(t, Close)
    decreases |nations|
  {
    if nations != [] {
      var p := nations[0];
      var tail := nations[1..];
      assert nations[0] in nations && forall n <- tail :: NoTagText(n);
      SplitCloseTags(tail, t);
      SplitCloseStep(p, Untagged(tail), t, tail + Split(t, Close));
      ConsAppend(p, tail, Split(t, Close), nations);
    } else {
      assert Untagged(nations) + t == t;
      ConsAppend(t, [], Split(t, Close), []);
    }
  }

  /** One more plain name and its closing tag in front: one more piece. */
  lemma SplitCloseStep(p: string, untagged: string, t: string, pieces: seq<string>)
    requires NoTagText(p) && Split(untagged + t, Close) == pieces
    ensures Split(p + Close + untagged + t, Close) == [p] + pieces
  {
    UntagStep(p, untagged, t);
    assert Close[0] == '[';
    SplitAtFirst(p + Close + untagged + t, p, Close, untagged + t);
  }

  /** `[x] + (a + b)` is `(x :: a) + b`, whatever `b` is. */
  lemma ConsAppend<T>(x: T, a: seq<T>, b: seq<T>, whole: seq<T>)
    ensures whole == [x] + a ==> [x] + (a + b) == whole + b
    ensures whole == [] ==> whole + b == b
  {
  }
}
