/** The prompt-mode and persona catalogs (data/promptModes.ts,
    data/personas.ts) and the two lookups services/geminiService.ts performs
    on them. Instruction texts are prose; only the keys, their order and
    whether an instruction is empty matter, so the catalogs are parameters and
    the shipped keys are constants. */
module Catalog {
  import opened Wrappers

  datatype Mode = Mode(key: string, instruction: string)
  datatype Persona = Persona(key: string, instruction: string)

  const ModeKeys: seq<string> := ["detailed", "concise", "image_generation", "chain_of_thought"]

  const PersonaKeys: seq<string> :=
    [ "default", "marketing-guru", "technical-writer", "creative-storyteller",
      "academic-researcher", "software-engineer", "frontend-developer",
      "backend-developer", "ui-ux-designer", "content-creator", "data-scientist",
      "legal-advisor" ]

  /** A mode catalog as shipped: the keys above in this order, each with an
      instruction. */
  predicate ShippedModes(modes: seq<Mode>) {
    && |modes| == |ModeKeys|
    && forall i :: 0 <= i < |modes| ==> modes[i].key == ModeKeys[i] && modes[i].instruction != ""
  }

  /** A persona catalog as shipped: the keys above in this order; only
      'default' has an empty instruction. */
  predicate ShippedPersonas(personas: seq<Persona>) {
    && |personas| == |PersonaKeys|
    && forall i :: 0 <= i < |personas| ==>
         personas[i].key == PersonaKeys[i] && (personas[i].instruction == "" <==> i == 0)
  }

  /** `PROMPT_MODES.find(m => m.key === mode)`: the first entry with the key. */
  function FindMode(modes: seq<Mode>, key: string): (r: Option<Mode>)
    ensures r.None? <==> forall i :: 0 <= i < |modes| ==> modes[i].key != key
    ensures r.Some? ==> exists i :: 0 <= i < |modes| && modes[i] == r.value && r.value.key == key
                                    && forall j :: 0 <= j < i ==> modes[j].key != key
  {
    if modes == [] then None
    else if modes[0].key == key then Some(modes[0])
    else
      var r := FindMode(modes[1..], key);
      assert r.Some? ==> exists i :: 0 <= i < |modes| && modes[i] == r.value && r.value.key == key
                                    && forall j :: 0 <= j < i ==> modes[j].key != key by {
        if r.Some? {
          var i :| 0 <= i < |modes[1..]| && modes[1..][i] == r.value && r.value.key == key
                   && forall j :: 0 <= j < i ==> modes[1..][j].key != key;
          assert forall j :: 0 <= j < i + 1 ==> modes[j].key != key by {
            forall j | 0 <= j < i + 1 ensures modes[j].key != key {
              if j > 0 {
                assert modes[j] == modes[1..][j - 1];
              }
            }
          }
        }
      }
      assert r.None? ==> forall i :: 0 <= i < |modes| ==> modes[i].key != key by {
        if r.None? {
          forall i | 0 <= i < |modes| ensures modes[i].key != key {
            if i > 0 {
              assert modes[i] == modes[1..][i - 1];
            }
          }
        }
      }
      r
  }

  /** `find(...) || PROMPT_MODES[0]`: an unknown key falls back to the first
      entry; with an empty catalog there is no entry at all. */
  function ModeFor(modes: seq<Mode>, key: string): (r: Option<Mode>)
    ensures r.None? <==> modes == []
    ensures r.Some? && (exists i :: 0 <= i < |modes| && modes[i].key == key) ==> r.value.key == key
    ensures modes != [] && (forall i :: 0 <= i < |modes| ==> modes[i].key != key) ==> r == Some(modes[0])
  {
    match FindMode(modes, key)
    case Some(m) => Some(m)
    case None => if modes == [] then None else Some(modes[0])
  }

  /** Some entry has the key and a non-empty instruction. */
  predicate HasInstruction(personas: seq<Persona>, key: string) {
    exists i :: 0 <= i < |personas| && personas[i].key == key && personas[i].instruction != ""
  }

  /** `PERSONA_INSTRUCTIONS`: a left fold over the catalog that records each
      non-empty instruction under its key, a later entry replacing an earlier
      one. */
  function InstructionMap(personas: seq<Persona>): (m: map<string, string>)
    ensures forall k :: k in m <==> HasInstruction(personas, k)
    ensures forall k :: k in m ==> m[k] != ""
    decreases |personas|
  {
    if personas == [] then map[]
    else
      var init := personas[..|personas| - 1];
      var p := personas[|personas| - 1];
      var acc := InstructionMap(init);
      assert forall k :: HasInstruction(personas, k) <==> HasInstruction(init, k) || (p.key == k && p.instruction != "") by {
        forall k ensures HasInstruction(personas, k) <==> HasInstruction(init, k) || (p.key == k && p.instruction != "") {
          if HasInstruction(personas, k) {
            var i :| 0 <= i < |personas| && personas[i].key == k && personas[i].instruction != "";
            if i < |init| {
              assert init[i] == personas[i];
            }
          }
          if HasInstruction(init, k) {
            var i :| 0 <= i < |init| && init[i].key == k && init[i].instruction != "";
            assert personas[i] == init[i];
          }
        }
      }
      if p.instruction != "" then acc[p.key := p.instruction] else acc
  }

  /** `PERSONA_INSTRUCTIONS[persona] || ''`. */
  function PersonaInstruction(personas: seq<Persona>, key: string): string {
    var m := InstructionMap(personas);
    if key in m then m[key] else ""
  }

  /** The lookup yields the instruction of the last entry that has the key
      and a non-empty instruction, and `''` when there is none. */
  lemma {:induction false} PersonaInstructionSpec(personas: seq<Persona>, key: string)
    ensures PersonaInstruction(personas, key) == "" <==> !HasInstruction(personas, key)
    ensures PersonaInstruction(personas, key) != "" ==>
      exists i :: 0 <= i < |personas| && personas[i].key == key
                  && personas[i].instruction == PersonaInstruction(personas, key)
                  && forall j :: i < j < |personas| && personas[j].key == key ==> personas[j].instruction == ""
    decreases |personas|
  {
    if personas != [] {
      var init := personas[..|personas| - 1];
      var n := |personas| - 1;
      var p := personas[n];
      PersonaInstructionSpec(init, key);
      if p.key == key && p.instruction != "" {
        assert PersonaInstruction(personas, key) == p.instruction;
      } else {
        assert PersonaInstruction(personas, key) == PersonaInstruction(init, key);
        if PersonaInstruction(init, key) != "" {
          var i :| 0 <= i < |init| && init[i].key == key
                   && init[i].instruction == PersonaInstruction(init, key)
                   && forall j :: i < j < |init| && init[j].key == key ==> init[j].instruction == "";
          assert personas[i] == init[i];
          forall j | i < j < |personas| && personas[j].key == key ensures personas[j].instruction == "" {
            if j < n {
              assert personas[j] == init[j];
            }
          }
        }
      }
    }
  }

  /** With distinct keys, looking up an entry's key yields its own
      instruction. */
  lemma {:induction false} DistinctKeyLookup(personas: seq<Persona>, i: nat)
    requires i < |personas|
    requires forall a, b :: 0 <= a < b < |personas| ==> personas[a].key != personas[b].key
    ensures PersonaInstruction(personas, personas[i].key) == personas[i].instruction
  {
    PersonaInstructionSpec(personas, personas[i].key);
    if personas[i].instruction == "" {
      assert !HasInstruction(personas, personas[i].key);
    } else {
      assert HasInstruction(personas, personas[i].key);
    }
  }

  /** In the shipped persona catalog, 'default' and every key outside it
      contribute no instruction, and every other persona its own. */
  lemma {:induction false} ShippedPersonaLookup(personas: seq<Persona>, key: string)
    requires ShippedPersonas(personas)
    ensures key == "default" || key !in PersonaKeys ==> PersonaInstruction(personas, key) == ""
    ensures forall i :: 1 <= i < |personas| && key == personas[i].key ==>
      PersonaInstruction(personas, key) == personas[i].instruction != ""
  {
    PersonaInstructionSpec(personas, key);
    PersonaKeysDistinct();
    assert PersonaKeys[0] == "default";
    if key == "default" || key !in PersonaKeys {
      forall i | 0 <= i < |personas| && personas[i].key == key ensures personas[i].instruction == "" {
        if key in PersonaKeys {
          assert i == 0;
        }
      }
    }
    forall i | 1 <= i < |personas| && key == personas[i].key
      ensures PersonaInstruction(personas, key) == personas[i].instruction != ""
    {
      DistinctKeyLookup(personas, i);
    }
  }

  /** The shipped persona keys are pairwise distinct. */
  lemma {:induction false} PersonaKeysDistinct()
    ensures forall a, b :: 0 <= a < b < |PersonaKeys| ==> PersonaKeys[a] != PersonaKeys[b]
  {
  }

  /** In the shipped mode catalog an unknown key gets the 'detailed' entry,
      and a known key its own. */
  lemma {:induction false} ShippedModeLookup(modes: seq<Mode>, key: string)
    requires ShippedModes(modes)
    ensures key !in ModeKeys ==> ModeFor(modes, key) == Some(modes[0]) && modes[0].key == "detailed"
    ensures forall i :: 0 <= i < |modes| && key == ModeKeys[i] ==> ModeFor(modes, key) == Some(modes[i])
  {
    assert forall a, b :: 0 <= a < b < |ModeKeys| ==> ModeKeys[a] != ModeKeys[b];
    if key !in ModeKeys {
      assert forall i :: 0 <= i < |modes| ==> modes[i].key != key;
    }
    forall i | 0 <= i < |modes| && key == ModeKeys[i] ensures ModeFor(modes, key) == Some(modes[i]) {
      var r := FindMode(modes, key);
      assert modes[i].key == key;
      var j :| 0 <= j < |modes| && modes[j] == r.value && r.value.key == key
               && forall k :: 0 <= k < j ==> modes[k].key != key;
      assert ModeKeys[j] == key;
    }
  }
}
