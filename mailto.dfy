/** The string handling applied to an anchor's href before it is stored as an
    email address: the crawler keeps any href that begins with "mailto" and
    deletes every "mailto:" in it, in one left-to-right pass, the way Python's
    str.replace(old, "") does. */
module Mailto {

  /** The text that is deleted from a mailto href. */
  const Scheme: string := "mailto:"

  /** The prefix the anchor selector tests for: no colon is required. */
  const SelectorPrefix: string := "mailto"

  /** True when the href is picked up by the mailto anchor selector. */
  predicate IsMailtoHref(href: string) {
    SelectorPrefix <= href
  }

  /** "mailto:" occurs in `s` starting at index `i`. */
  predicate OccursAt(s: string, i: int) {
    0 <= i && i + |Scheme| <= |s| && s[i..i + |Scheme|] == Scheme
  }

  /** `s` holds no "mailto:" anywhere. */
  predicate NoScheme(s: string) {
    forall i | 0 <= i <= |s| :: !OccursAt(s, i)
  }

  /** Deletes the non-overlapping occurrences of "mailto:" found scanning
      from the left; what the deletion brings together is not rescanned. */
  function StripMailto(s: string): (r: string)
    ensures |r| <= |s|
    decreases |s|
  {
    if |s| < |Scheme| then s
    else if s[..|Scheme|] == Scheme then StripMailto(s[|Scheme|..])
    else [s[0]] + StripMailto(s[1..])
  }

  /** No proper suffix of "mailto:" is a prefix of it: an occurrence that
      starts within the first 6 characters before another one cannot exist. */
  lemma NoSelfOverlap(a: string, b: string)
    requires 0 < |a| < |Scheme|
    ensures (a + Scheme + b)[..|Scheme|] != Scheme
  {
    var s := a + Scheme + b;
    assert s[|a|] == 'm';
    assert Scheme[|a|] != 'm' by {
      assert Scheme == ['m', 'a', 'i', 'l', 't', 'o', ':'];
    }
    assert s[..|Scheme|][|a|] == s[|a|];
  }

  /** Deleting an explicit "mailto:" splits the pass into two independent
      passes over the text before it and the text after it. */
  lemma {:induction false} StripMailtoSplice(a: string, b: string)
    ensures StripMailto(a + Scheme + b) == StripMailto(a) + StripMailto(b)
    decreases |a|
  {
    var s := a + Scheme + b;
    if |a| == 0 {
      assert s == Scheme + b;
      assert s[..|Scheme|] == Scheme;
      assert s[|Scheme|..] == b;
    } else if |a| >= |Scheme| && a[..|Scheme|] == Scheme {
      assert s[..|Scheme|] == Scheme;
      assert s[|Scheme|..] == a[|Scheme|..] + Scheme + b;
      StripMailtoSplice(a[|Scheme|..], b);
    } else {
      if |a| < |Scheme| {
        NoSelfOverlap(a, b);
      } else {
        assert s[..|Scheme|] == a[..|Scheme|];
      }
      assert s[1..] == a[1..] + Scheme + b;
      StripMailtoSplice(a[1..], b);
    }
  }

  /** The pass changes nothing exactly when there is nothing to delete. */
  lemma {:induction false} StripMailtoUnchangedIff(s: string)
    ensures StripMailto(s) == s <==> NoScheme(s)
    decreases |s|
  {
    if NoScheme(s) {
      StripMailtoKeepsClean(s);
    } else {
      var i :| 0 <= i <= |s| && OccursAt(s, i);
      assert i + |Scheme| <= |s|;
      var a, b := s[..i], s[i + |Scheme|..];
      assert s == a + Scheme + b;
      StripMailtoSplice(a, b);
      assert |StripMailto(s)| < |s|;
    }
  }

  lemma {:induction false} StripMailtoKeepsClean(s: string)
    requires NoScheme(s)
    ensures StripMailto(s) == s
    decreases |s|
  {
    if |s| >= |Scheme| {
      assert !OccursAt(s, 0);
      assert s[0..|Scheme|] == s[..|Scheme|];
      forall i ensures !OccursAt(s[1..], i) {
        if OccursAt(s[1..], i) {
          assert s[1..][i..i + |Scheme|] == s[i + 1..i + 1 + |Scheme|];
          assert OccursAt(s, i + 1);
        }
      }
      StripMailtoKeepsClean(s[1..]);
    }
  }

  /** A mailto href with one leading "mailto:" and none after it loses
      exactly that prefix; a query suffix is kept verbatim. */
  lemma StripMailtoPrefix(t: string)
    requires NoScheme(t)
    ensures StripMailto(Scheme + t) == t
  {
    StripMailtoSplice([], t);
    StripMailtoKeepsClean(t);
  }

  /** Every "mailto:" ends in a colon, so an href without one holds none
      and is kept whole. */
  lemma ColonFreeUnchanged(s: string)
    requires ':' !in s
    ensures NoScheme(s) && StripMailto(s) == s
  {
    forall i | 0 <= i <= |s| ensures !OccursAt(s, i) {
      if i + |Scheme| <= |s| {
        assert s[i..i + |Scheme|][|Scheme| - 1] == s[i + |Scheme| - 1];
        assert s[i + |Scheme| - 1] in s;
      }
    }
    StripMailtoKeepsClean(s);
  }

  /** A query string after the address is kept verbatim. */
  lemma StripMailtoKeepsQuery()
    ensures StripMailto("mailto:a@b.com?subject=hi") == "a@b.com?subject=hi"
  {
    var query := "a@b.com?subject=hi";
    assert "mailto:a@b.com?subject=hi" == Scheme + query;
    ColonFreeUnchanged(query);
    StripMailtoPrefix(query);
  }

  /** Every "mailto:" href is selected; so is a colon-less "mailto" href,
      which is then stored whole. */
  lemma MailtoSelected(t: string)
    ensures IsMailtoHref(Scheme + t)
    ensures ':' !in t ==>
      IsMailtoHref(SelectorPrefix + t) && StripMailto(SelectorPrefix + t) == SelectorPrefix + t
  {
    assert (Scheme + t)[..|SelectorPrefix|] == SelectorPrefix;
    if ':' !in t {
      assert ':' !in SelectorPrefix + t by {
        assert SelectorPrefix == ['m', 'a', 'i', 'l', 't', 'o'];
      }
      ColonFreeUnchanged(SelectorPrefix + t);
    }
  }

  /** One pass can leave a "mailto:" that the deletion itself brought together. */
  lemma StripMailtoOnePass()
    ensures StripMailto("mailmailto:to:") == "mailto:"
    ensures !NoScheme(StripMailto("mailmailto:to:"))
  {
    assert "mailmailto:to:" == "mail" + Scheme + "to:";
    StripMailtoSplice("mail", "to:");
    assert OccursAt("mailto:", 0);
  }
}
