/**
 * The filter step of the teammate search (`searchTeammates`): the loaded
 * directory is filtered by a free-text query, a game and a skill, every
 * empty criterion meaning "any". The directory is a parameter (loading it
 * over the network is not modelled), and so are the three input values.
 */
module TeammateSearch {
  import opened Strings
  import opened Sequences

  /** One record of the directory. */
  datatype Teammate = Teammate(name: string, game: string, skill: string, desc: string)

  /** The text condition; `query` is the search box's text, already lower-cased. */
  predicate TextMatches(t: Teammate, query: string)
  {
    query == "" || Includes(ToLower(t.desc), query) || Includes(ToLower(t.name), query)
  }

  /** The game condition: exact, case-sensitive equality unless no game is selected. */
  predicate GameMatches(t: Teammate, game: string)
  {
    game == "" || t.game == game
  }

  /** The skill condition: exact, case-sensitive equality unless no skill is selected. */
  predicate SkillMatches(t: Teammate, skill: string)
  {
    skill == "" || t.skill == skill
  }

  /** The predicate handed to `filter`: all three conditions together. */
  function Criterion(query: string, game: string, skill: string): Teammate -> bool
  {
    t => TextMatches(t, query) && GameMatches(t, game) && SkillMatches(t, skill)
  }

  /** The teammates shown for search text `input`, `game` and `skill`. */
  function Search(teammates: seq<Teammate>, input: string, game: string, skill: string): (r: seq<Teammate>)
    ensures |r| <= |teammates|
    ensures forall i :: 0 <= i < |r| ==>
              && r[i] in teammates
              && TextMatches(r[i], ToLower(input)) && GameMatches(r[i], game) && SkillMatches(r[i], skill)
    ensures forall i :: 0 <= i < |teammates| ==>
              TextMatches(teammates[i], ToLower(input)) && GameMatches(teammates[i], game)
              && SkillMatches(teammates[i], skill)
              ==> teammates[i] in r
  {
    Keep(teammates, Criterion(ToLower(input), game, skill))
  }

  /**
   * The result keeps the matching records in their original order: it is
   * the directory restricted to the increasing positions `idx`, and those
   * are exactly the positions whose record satisfies all three conditions.
   */
  lemma SearchKeepsOrder(teammates: seq<Teammate>, input: string, game: string, skill: string)
    returns (idx: seq<nat>)
    ensures |idx| == |Search(teammates, input, game, skill)|
    ensures forall k, l :: 0 <= k < l < |idx| ==> idx[k] < idx[l]
    ensures forall k :: 0 <= k < |idx| ==>
              idx[k] < |teammates| && Search(teammates, input, game, skill)[k] == teammates[idx[k]]
    ensures forall i :: 0 <= i < |teammates| ==>
              (i in idx <==> TextMatches(teammates[i], ToLower(input))
                             && GameMatches(teammates[i], game) && SkillMatches(teammates[i], skill))
  {
    idx := KeepIsStableSelection(teammates, Criterion(ToLower(input), game, skill));
  }

  /** With no text, no game and no skill the whole directory is shown, in order. */
  lemma SearchWithoutCriteria(teammates: seq<Teammate>)
    ensures Search(teammates, "", "", "") == teammates
  {
    KeepAll(teammates, Criterion(ToLower(""), "", ""));
  }

  /** Searching the result again with the same inputs changes nothing. */
  lemma SearchIdempotent(teammates: seq<Teammate>, input: string, game: string, skill: string)
    ensures Search(Search(teammates, input, game, skill), input, game, skill)
         == Search(teammates, input, game, skill)
  {
    KeepIdempotent(teammates, Criterion(ToLower(input), game, skill));
  }

  /** Search texts that differ only in the case of their letters give the same result. */
  lemma SearchIgnoresQueryCase(teammates: seq<Teammate>, input: string, input': string, game: string, skill: string)
    requires |input| == |input'|
    requires forall i :: 0 <= i < |input| ==> SameLetter(input[i], input'[i])
    ensures Search(teammates, input, game, skill) == Search(teammates, input', game, skill)
  {
    ToLowerIgnoresCase(input, input');
  }

  /**
   * The text condition ignores the case of the record's name and
   * description: "sniper" finds "Sniper" and "SNIPER" alike.
   */
  lemma TextMatchIgnoresRecordCase(t: Teammate, t': Teammate, query: string)
    requires |t.name| == |t'.name| && forall i :: 0 <= i < |t.name| ==> SameLetter(t.name[i], t'.name[i])
    requires |t.desc| == |t'.desc| && forall i :: 0 <= i < |t.desc| ==> SameLetter(t.desc[i], t'.desc[i])
    ensures TextMatches(t, query) == TextMatches(t', query)
  {
    ToLowerIgnoresCase(t.name, t'.name);
    ToLowerIgnoresCase(t.desc, t'.desc);
  }

  /** The records kept by the text condition alone. */
  function ByText(teammates: seq<Teammate>, query: string): seq<Teammate>
  {
    Keep(teammates, t => TextMatches(t, query))
  }

  /** The records kept by the game condition alone. */
  function ByGame(teammates: seq<Teammate>, game: string): seq<Teammate>
  {
    Keep(teammates, t => GameMatches(t, game))
  }

  /** The records kept by the skill condition alone. */
  function BySkill(teammates: seq<Teammate>, skill: string): seq<Teammate>
  {
    Keep(teammates, t => SkillMatches(t, skill))
  }

  /** Applying the three conditions one after another, in any order, gives the search result. */
  lemma SearchConditionsInAnyOrder(teammates: seq<Teammate>, input: string, game: string, skill: string)
    ensures var q := ToLower(input);
            var r := Search(teammates, input, game, skill);
            && BySkill(ByGame(ByText(teammates, q), game), skill) == r
            && ByGame(BySkill(ByText(teammates, q), skill), game) == r
            && BySkill(ByText(ByGame(teammates, game), q), skill) == r
            && ByText(BySkill(ByGame(teammates, game), skill), q) == r
            && ByGame(ByText(BySkill(teammates, skill), q), game) == r
            && ByText(ByGame(BySkill(teammates, skill), game), q) == r
  {
    var q := ToLower(input);
    var text: Teammate -> bool := t => TextMatches(t, q);
    var gm: Teammate -> bool := t => GameMatches(t, game);
    var sk: Teammate -> bool := t => SkillMatches(t, skill);
    var all := Criterion(q, game, skill);
    KeepInSteps(teammates, text, gm, sk, all);
    KeepInSteps(teammates, text, sk, gm, all);
    KeepInSteps(teammates, gm, text, sk, all);
    KeepInSteps(teammates, gm, sk, text, all);
    KeepInSteps(teammates, sk, text, gm, all);
    KeepInSteps(teammates, sk, gm, text, all);
  }

  /** The example of a directory with two records, filtered by game only. */
  lemma SearchByGameExample()
    ensures var a := Teammate("A", "cs", "pro", "sniper");
            var b := Teammate("B", "dota", "noob", "support");
            Search([a, b], "", "cs", "") == [a]
  {
    var a := Teammate("A", "cs", "pro", "sniper");
    var b := Teammate("B", "dota", "noob", "support");
    assert [a, b][..1] == [a];
  }
}
