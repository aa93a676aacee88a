/** Environment ids (kern/env.c): a 32-bit id holds a slot of `envs` and how many ids
    were made before, so that an id of a dead environment is not taken for its slot's
    next owner. */
module EnvIds {
  import opened Mmu

  const E_BAD_ENV := 2
  const ULONG := 0x1_0000_0000
  const LIVES := 0x20_0000             // 2^32 / 2^(1 + LOG2NENV)

  /** ((++i) << (1 + LOG2NENV)) | e, where n is the number of ids made, this one included. */
  function MakeId(n: nat, e: nat): (id: nat)
    requires e < NENV
    ensures id < ULONG
  { n * 2048 % ULONG + e }

  /** ENVX */
  function Slot(id: nat): nat { id % NENV }

  lemma IdParts(n: nat, e: nat)
    requires e < NENV
    ensures n * 2048 % ULONG == n % LIVES * 2048
    ensures Slot(MakeId(n, e)) == e && MakeId(n, e) / 2048 == n % LIVES
  {
    assert n * 2048 == n / LIVES * ULONG + n % LIVES * 2048;
    assert MakeId(n, e) == n % LIVES * 2048 + e;
    assert n % LIVES * 2048 == n % LIVES * 2 * NENV;
  }

  /** Two ids are the same exactly when they are for the same slot and a multiple of
      2^21 ids was made in between. */
  lemma SameIdIff(n: nat, e: nat, m: nat, f: nat)
    requires e < NENV && f < NENV
    ensures MakeId(n, e) == MakeId(m, f) <==> e == f && n % LIVES == m % LIVES
  {
    IdParts(n, e);
    IdParts(m, f);
  }

  /** The id that means "myself" to every system call is made exactly for slot 0 when
      the counter has wrapped. */
  lemma ZeroIdIff(n: nat, e: nat)
    requires e < NENV
    ensures MakeId(n, e) == 0 <==> e == 0 && n % LIVES == 0
  {
    IdParts(n, e);
  }

  /** id: env_id; born: how many ids were made when the slot got it (0: never used). */
  datatype Env = Env(live: bool, id: nat, parent: nat, born: nat)

  class EnvTable {
    var envs: seq<Env>
    var made: nat                     // mkenvid's i, before it wraps
    var cur: nat

    ghost predicate Valid()
      reads this
    {
      && |envs| == NENV && cur < NENV
      && forall e | 0 <= e < NENV :: envs[e].born <= made && (envs[e].live ==> envs[e].born > 0)
                                     && (envs[e].born > 0 ==> envs[e].id == MakeId(envs[e].born, e))
    }

    /** The end of env_alloc for the free slot e: an id is made and stored before an ASID
        is looked for.  Without one the slot stays free, and the id is spent. */
    method GiveId(e: nat, parent: nat, asidLeft: bool) returns (ok: bool)
      requires Valid() && e < NENV && !envs[e].live
      modifies `envs, `made
      ensures Valid() && ok == asidLeft && made == old(made) + 1
      ensures envs == old(envs)[e := Env(ok, MakeId(made, e), parent, made)]
    {
      made := made + 1;
      envs := envs[e := envs[e].(id := MakeId(made, e), parent := parent, born := made)];
      if !asidLeft { return false; }
      envs := envs[e := envs[e].(live := true)];
      return true;
    }

    /** env_free leaves the id in the slot. */
    method Retire(e: nat)
      requires Valid() && e < NENV
      modifies `envs
      ensures Valid() && envs == old(envs)[e := old(envs)[e].(live := false)]
    {
      envs := envs[e := envs[e].(live := false)];
    }

    /** envid2env.  Zero is the caller.  Any other id resolves to at most the live owner
        of its slot; one that was made for slot e as number n resolves exactly when e is
        live and its present owner's number is a multiple of 2^21 from n, and, with
        checkperm, only for that environment itself and its parent. */
    method EnvId2Env(id: nat, checkperm: bool, ghost n: nat, ghost e: nat) returns (r: int, penv: nat)
      requires Valid() && e < NENV && id < ULONG
      ensures r == 0 || r == -E_BAD_ENV
      ensures id == 0 ==> r == 0 && penv == cur
      ensures id != 0 && r == 0 ==> penv < NENV && envs[penv].live && envs[penv].id == id
      ensures id != 0 && id == MakeId(n, e) ==>
        (r == 0 <==>
          && envs[e].live && envs[e].born % LIVES == n % LIVES
          && (checkperm ==> envs[cur].id == envs[e].id || envs[cur].id == envs[e].parent))
    {
      IdParts(n, e);
      SameIdIff(n, e, envs[e].born, e);
      if id == 0 { return 0, cur; }
      penv := Slot(id);
      if !envs[penv].live || envs[penv].id != id { return -E_BAD_ENV, penv; }
      if checkperm && envs[cur].id != envs[penv].id && envs[cur].id != envs[penv].parent {
        return -E_BAD_ENV, penv;
      }
      r := 0;
    }
  }
}
