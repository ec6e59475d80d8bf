/**
 * The variable table shared by the parser and the CNF compiler: `Vmap`
 * (name to id) and its inverse `Rmap` (id to name). Ids are dense, handed
 * out in first-seen order, and never reused.
 */
module VarTables {

  /**
   * `is_var_char`: letters and digits. No operator, separator or terminator
   * character is one, so the token classes of the parser are disjoint.
   */
  predicate IsVarChar(c: char): (b: bool)
    ensures b ==> c !in "!()&|-<>; \0"
  {
    ('a' <= c <= 'z') || ('A' <= c <= 'Z') || ('0' <= c <= '9')
  }

  /** A variable token: a nonempty run of variable characters. */
  ghost predicate IsVarName(s: string) {
    |s| > 0 && forall i | 0 <= i < |s| :: IsVarChar(s[i])
  }

  /** The value of the two tables. */
  datatype Names = Names(vmap: map<string, nat>, rmap: seq<string>) {

    /** The two tables are inverse bijections between names and `[0, |rmap|)`. */
    ghost predicate Valid() {
      && (forall n | n in vmap :: vmap[n] < |rmap| && rmap[vmap[n]] == n)
      && (forall i | 0 <= i < |rmap| :: rmap[i] in vmap && vmap[rmap[i]] == i)
    }

    /** This table is an extension of `older`: nothing removed, no id changed. */
    ghost predicate Extends(older: Names) {
      && older.rmap <= rmap
      && (forall n | n in older.vmap :: n in vmap && vmap[n] == older.vmap[n])
    }
  }

  const Empty: Names := Names(map[], [])

  lemma EmptyValid()
    ensures Empty.Valid()
  {
  }

  /**
   * Look a name up, adding it with the next id if it is new. A new name gets
   * id `|rmap|` and is appended to `Rmap`; a known name keeps its id and
   * leaves both tables as they were.
   */
  function Interned(t: Names, name: string): (r: (Names, nat))
    requires t.Valid()
    ensures r.0.Valid() && r.0.Extends(t)
    ensures r.1 < |r.0.rmap| && r.0.rmap[r.1] == name && name in r.0.vmap && r.0.vmap[name] == r.1
    ensures name in t.vmap ==> r.0 == t
    ensures name !in t.vmap ==> r.1 == |t.rmap| && r.0.rmap == t.rmap + [name]
                                && r.0.vmap.Keys == t.vmap.Keys + {name}
  {
    if name in t.vmap then (t, t.vmap[name])
    else
      var id := |t.rmap|;
      var r := Names(t.vmap[name := id], t.rmap + [name]);
      assert forall n | n in r.vmap :: r.vmap[n] < |r.rmap| && r.rmap[r.vmap[n]] == n by {
        forall n | n in r.vmap ensures r.vmap[n] < |r.rmap| && r.rmap[r.vmap[n]] == n {
          if n != name {
            assert n in t.vmap;
          }
        }
      }
      (r, id)
  }

  lemma ExtendsTransitive(a: Names, b: Names, c: Names)
    requires b.Extends(a) && c.Extends(b)
    ensures c.Extends(a)
  {
  }

  /** The mutable tables that `parse_var` and `find_or_assign_var` update in place. */
  class VarTable {
    var vmap: map<string, nat>
    var rmap: seq<string>

    function Value(): Names
      reads this
    {
      Names(vmap, rmap)
    }

    constructor ()
      ensures Value() == Empty
    {
      vmap := map[];
      rmap := [];
    }

    /** Interns `name`, returning its id. */
    method Intern(name: string) returns (id: nat)
      requires Value().Valid()
      modifies this
      ensures (Value(), id) == Interned(old(Value()), name)
    {
      if name !in vmap {
        vmap := vmap[name := |rmap|];
        rmap := rmap + [name];
      }
      id := vmap[name];
    }
  }
}
