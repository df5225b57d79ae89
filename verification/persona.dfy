/**
 The demo reply generator `generate_ai_response`: it ignores any model and
 picks one of six fixed candidate replies at random. Only the first
 candidate depends on the input, which it quotes.

 The random pick is a parameter: `pick` is the index `random.choice` would
 draw from the six-element candidate list.
 */
module Persona {

  /** The number of candidate replies. */
  const CandidateCount: nat := 6

  /** The first candidate quotes the input between these two pieces. */
  const EchoPrefix: string := "¡Oh! ¿Dices que '"
  const EchoSuffix: string := "'? ¡Suena como el mugido de una vaca resfriada!"

  /** Candidates 1 to 5, which never mention the input. */
  const Eat: string := "¿Eso se come? Huele a lluvia fresca, ¿no crees?"
  const Crickets: string := "¡No entiendo esas palabras raras! Mejor vamos a buscar grillos al río."
  const Shiny: string := "Mi papá dice que las cosas que brillan mucho a veces muerden. ¡Ten cuidado!"
  const Milk: string := "¿Tienes hambre? ¡Acabo de ordeñar a la Manchada! La leche está calientita."
  const Stone: string := "¡Qué cosa más extraña! Se parece a una piedra, pero habla como gente."
  const FixedReplies: seq<string> := [Eat, Crickets, Shiny, Milk, Stone]

  /** The candidate list built for one input, in the order `generate_ai_response` lists them. */
  function Candidates(input: string): seq<string> {
    [EchoPrefix + input + EchoSuffix] + FixedReplies
  }

  /** `generate_ai_response`: the candidate at index `pick`. Defined for every
      input, the empty string included; never empty itself. */
  function Reply(input: string, pick: nat): (r: string)
    requires pick < CandidateCount
    ensures r in Candidates(input)
    ensures |r| > 0
    ensures pick == 0 ==> |r| == |EchoPrefix| + |input| + |EchoSuffix|
    ensures pick == 0 ==> r[|EchoPrefix|..|EchoPrefix| + |input|] == input
    ensures pick != 0 ==> r in FixedReplies
  {
    var r := Candidates(input)[pick];
    if pick == 0 then
      assert r == EchoPrefix + input + EchoSuffix;
      assert r[|EchoPrefix|..|EchoPrefix| + |input|] == input;
      r
    else
      r
  }

  /** No candidate but the first depends on the input. */
  lemma ReplyIgnoresInputAfterFirst(a: string, b: string, pick: nat)
    requires 0 < pick < CandidateCount
    ensures Reply(a, pick) == Reply(b, pick)
  {
  }

  /** The first candidate tells inputs apart: equal echoes quote equal inputs. */
  lemma EchoIsInjective(a: string, b: string)
    ensures Reply(a, 0) == Reply(b, 0) ==> a == b
  {
    if Reply(a, 0) == Reply(b, 0) {
      var r := Reply(a, 0);
      assert a == r[|EchoPrefix|..|EchoPrefix| + |a|];
      assert b == r[|EchoPrefix|..|EchoPrefix| + |b|];
    }
  }

  /** The last two characters of a reply. */
  function Ending(s: string): string
    requires |s| >= 2
  {
    s[|s| - 2..]
  }

  /** The fixed replies have pairwise different lengths, so they differ, and
      none ends the way a quoting reply does. */
  lemma FixedRepliesDistinct()
    ensures forall p, q :: 0 <= p < q < |FixedReplies| ==> FixedReplies[p] != FixedReplies[q]
    ensures forall p :: 0 <= p < |FixedReplies| ==> |FixedReplies[p]| >= 2 && Ending(FixedReplies[p]) != Ending(EchoSuffix)
  {
    assert |Eat| == 47 && |Crickets| == 70 && |Shiny| == 75 && |Milk| == 74 && |Stone| == 69;
    assert Ending(EchoSuffix) == "a!";
    assert Ending(Eat) == "s?" && Ending(Crickets) == "o." && Ending(Shiny) == "o!";
    assert Ending(Milk) == "a." && Ending(Stone) == "e.";
  }

  /** The six candidates are pairwise different, so a reply reveals which
      candidate was picked, and, for the first, which input it quoted. */
  lemma ReplyDeterminesPick(a: string, b: string, i: nat, j: nat)
    requires i < CandidateCount && j < CandidateCount
    requires Reply(a, i) == Reply(b, j)
    ensures i == j
    ensures i == 0 ==> a == b
  {
    FixedRepliesDistinct();
    // A quoting reply ends like the quote's suffix, which no fixed reply does.
    EchoEnding(a);
    EchoEnding(b);
    if i == 0 && j == 0 {
      EchoIsInjective(a, b);
    } else if i != 0 && j != 0 {
      assert Reply(a, i) == FixedReplies[i - 1] && Reply(b, j) == FixedReplies[j - 1];
    }
  }

  lemma EchoEnding(input: string)
    ensures Ending(Reply(input, 0)) == Ending(EchoSuffix)
  {
    assert Reply(input, 0) == EchoPrefix + input + EchoSuffix;
  }
}
