/** The duplicate filter of the command line client (client/nyansd_client.cpp). */
module Duplicates {
  import opened ByteOrder
  import opened Text
  import opened Wire
  import opened Response
  import opened EndToEnd

  method IsDuplicate(uniques: seq<Service>, rm: Service) returns (found: bool)
    ensures found <==> rm in uniques
  {
    var j := 0;
    while j < |uniques|
      invariant 0 <= j <= |uniques| && rm !in uniques[..j]
    {
      if uniques[j].ipv4 == rm.ipv4 && uniques[j].ipv6 == rm.ipv6 && uniques[j].hostname == rm.hostname
         && uniques[j].port == rm.port && uniques[j].service == rm.service && uniques[j].protocol == rm.protocol {
        return true;
      }
      j := j + 1;
    }
    return false;
  }

  /** What the filtering loop keeps. */
  function Uniques(responses: seq<Service>): seq<Service> {
    if responses == [] then []
    else
      var before, last := Uniques(responses[..|responses| - 1]), responses[|responses| - 1];
      if last in before then before else before + [last]
  }

  method FilterDuplicates(responses: seq<Service>) returns (uniques: seq<Service>)
    ensures uniques == Uniques(responses)
  {
    uniques := [];
    for i := 0 to |responses|
      invariant uniques == Uniques(responses[..i])
    {
      assert responses[..i + 1][..i] == responses[..i];
      var duplicate := IsDuplicate(uniques, responses[i]);
      if duplicate {
        continue;
      }
      uniques := uniques + [responses[i]];
    }
    assert responses[..|responses|] == responses;
  }

  predicate NoTwoEqual(list: seq<Service>) {
    forall i, j :: 0 <= i < j < |list| ==> list[i] != list[j]
  }

  /** Where a service first occurs. */
  function FirstIndex(responses: seq<Service>, sv: Service): (k: nat)
    requires sv in responses
    ensures k < |responses| && responses[k] == sv && sv !in responses[..k]
  {
    if responses[0] == sv then 0
    else
      var k := FirstIndex(responses[1..], sv);
      assert responses[..k + 1] == [responses[0]] + responses[1..][..k];
      k + 1
  }

  /** The filtered list holds every service once, the same ones as the input, ordered by where each
      first occurs. */
  lemma {:induction false} UniquesKeepFirst(responses: seq<Service>)
    ensures var u := Uniques(responses);
            && NoTwoEqual(u)
            && (forall sv :: sv in u <==> sv in responses)
            && (forall i, j :: 0 <= i < j < |u| && u[i] in responses && u[j] in responses ==>
                  FirstIndex(responses, u[i]) < FirstIndex(responses, u[j]))
  {
    if responses == [] {
    } else {
      var before, last := responses[..|responses| - 1], responses[|responses| - 1];
      assert responses == before + [last];
      UniquesKeepFirst(before);
      var v, u := Uniques(before), Uniques(responses);
      forall i, j | 0 <= i < j < |u| && u[i] in responses && u[j] in responses
        ensures FirstIndex(responses, u[i]) < FirstIndex(responses, u[j])
      {
        assert u[i] in v;
        FirstIndexKept(before, last, u[i]);
        if j < |v| {
          assert u[j] in v;
          FirstIndexKept(before, last, u[j]);
        } else {
          assert responses[..|before|] == before;
        }
      }
    }
  }

  lemma {:induction false} FirstIndexKept(before: seq<Service>, last: Service, sv: Service)
    requires sv in before
    ensures sv in before + [last] && FirstIndex(before + [last], sv) == FirstIndex(before, sv)
  {
    if before[0] != sv {
      assert (before + [last])[1..] == before[1..] + [last];
      FirstIndexKept(before[1..], last, sv);
    }
  }

  /** A list without equal entries passes the filter unchanged. */
  lemma {:induction false} UniquesOfUnique(list: seq<Service>)
    requires NoTwoEqual(list)
    ensures Uniques(list) == list
  {
    if list == [] {
    } else {
      UniquesOfUnique(list[..|list| - 1]);
    }
  }

  /** Filtering again changes nothing. */
  lemma Idempotent(responses: seq<Service>)
    ensures Uniques(Uniques(responses)) == Uniques(responses)
  {
    UniquesKeepFirst(responses);
    UniquesOfUnique(Uniques(responses));
  }

  /** Filtering a longer list filters the earlier part and then goes on; in particular further copies
      of records already seen change nothing, and anything new does. */
  lemma {:induction false} CopiesChangeNothing(responses: seq<Service>, more: seq<Service>)
    ensures Uniques(responses) <= Uniques(responses + more)
    ensures Uniques(responses + more) == Uniques(responses) <==> forall sv :: sv in more ==> sv in responses
  {
    if more == [] {
      assert responses + more == responses;
    } else {
      var before, last := more[..|more| - 1], more[|more| - 1];
      assert (responses + more)[..|responses + more| - 1] == responses + before;
      assert more == before + [last];
      CopiesChangeNothing(responses, before);
      UniquesKeepFirst(responses);
      UniquesKeepFirst(responses + before);
      UniquesKeepFirst(responses + more);
    }
  }

  lemma {:induction false} ExpectedOf(arrivals: seq<Arrival>, sv: Service)
    ensures sv in ExpectedList(arrivals) <==> exists k :: 0 <= k < |arrivals| && sv in arrivals[k].Expected()
  {
    if arrivals == [] {
    } else {
      ExpectedOf(arrivals[1..], sv);
      if k: nat :| k < |arrivals| && sv in arrivals[k].Expected() {
        if k > 0 {
          assert arrivals[1..][k - 1] == arrivals[k];
        }
      }
    }
  }

  lemma {:induction false} ExpectedAppend(a: seq<Arrival>, b: seq<Arrival>)
    ensures ExpectedList(a + b) == ExpectedList(a) + ExpectedList(b)
  {
    if a == [] {
      assert a + b == b;
    } else {
      assert (a + b)[1..] == a[1..] + b;
      ExpectedAppend(a[1..], b);
    }
  }

  /** Answers that arrive again, the same in table, filter and local address, leave the filtered list
      as it is. */
  lemma SeveralInterfaces(arrivals: seq<Arrival>, again: seq<Arrival>)
    requires forall k :: 0 <= k < |again| ==> again[k] in arrivals
    ensures Uniques(ExpectedList(arrivals + again)) == Uniques(ExpectedList(arrivals))
  {
    hide ExpectedList, Uniques;
    ExpectedAppend(arrivals, again);
    forall sv | sv in ExpectedList(again)
      ensures sv in ExpectedList(arrivals)
    {
      ExpectedOf(again, sv);
      ExpectedOf(arrivals, sv);
      var k :| 0 <= k < |again| && sv in again[k].Expected();
      assert again[k] in arrivals;
    }
    CopiesChangeNothing(ExpectedList(arrivals), ExpectedList(again));
  }

  lemma {:induction false} InListed(table: seq<Service>, local: Option<Word32>, sv: Service)
    ensures sv in Listed(table, local) <==> exists k :: 0 <= k < |table| && Substituted(table[k], local) == Some(sv)
  {
    if table == [] {
    } else {
      var before, last := table[..|table| - 1], Substituted(table[|table| - 1], local);
      InListed(before, local, sv);
      if k: nat :| k < |before| && Substituted(before[k], local) == Some(sv) {
        assert Substituted(table[k], local) == Some(sv);
      }
      if k: nat :| k < |table| && Substituted(table[k], local) == Some(sv) {
        assert k < |before| ==> Substituted(before[k], local) == Some(sv);
      }
    }
  }

  /** The record a service without an address gets with a local one is registered as it is. */
  predicate Registered(table: seq<Service>, sv: Service, local: Word32) {
    local != ZERO && sv.(ipv4 := local, ipv6 := "") in table
  }

  /** One responder asked over two networks, where it offers different local addresses: the second
      answer adds nothing exactly when no selected service needs the second address, or what it makes
      of each that does is registered by itself. Otherwise such a service is kept once per network. */
  lemma TwoNetworks(selected: seq<Service>, first: Option<Word32>, second: Option<Word32>)
    requires first != second
    ensures Uniques(Listed(selected, first) + Listed(selected, second)) == Uniques(Listed(selected, first))
       <==> second.Some? ==>
              forall sv :: sv in selected && sv.ipv4 == ZERO ==> Registered(selected, sv, second.value)
  {
    hide Listed, Uniques;
    CopiesChangeNothing(Listed(selected, first), Listed(selected, second));
    if second.Some? && exists sv :: sv in selected && sv.ipv4 == ZERO && !Registered(selected, sv, second.value) {
      var sv :| sv in selected && sv.ipv4 == ZERO && !Registered(selected, sv, second.value);
      var record := sv.(ipv4 := second.value, ipv6 := "");
      InListed(selected, second, record);
      assert exists k :: 0 <= k < |selected| && selected[k] == sv;
      InListed(selected, first, record);
    } else {
      forall record | record in Listed(selected, second)
        ensures record in Listed(selected, first)
      {
        InListed(selected, second, record);
        var k :| 0 <= k < |selected| && Substituted(selected[k], second) == Some(record);
        InListed(selected, first, record);
        if selected[k].ipv4 != ZERO {
          assert Substituted(selected[k], first) == Some(record);
        } else {
          assert Registered(selected, selected[k], second.value);
          var h :| 0 <= h < |selected| && selected[h] == record;
          assert Substituted(selected[h], first) == Some(record);
        }
      }
    }
  }
}
