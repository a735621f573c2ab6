/** `BasicInMemoryMazeRepository`: mazes kept in a dictionary keyed by their
    id, with the exceptions the operations throw when the id is missing or
    already taken. Entities are values here. */
module MazeRepository {
  import opened Outcomes
  import opened Seqs

  /** A 128-bit `Guid`. */
  newtype Guid = x: int | 0 <= x < 0x1_0000_0000_0000_0000_0000_0000_0000_0000

  /** `MazeConfiguration`: the maze text and its solution, under an id. */
  datatype MazeConfiguration = MazeConfiguration(id: Guid, maze: string, solution: Option<string>)

  const DuplicateIdMessage := "Maze with the same Id already exists."
  const MissingIdMessage := "Maze with the specified Id not found."
  const CouldNotFindPrefix := "Could not find the maze with ID "

  /** A lower-case hexadecimal digit. */
  function HexDigit(d: int): (c: char)
    requires 0 <= d < 16
    ensures ('0' <= c <= '9') || ('a' <= c <= 'f')
  {
    if d < 10 then '0' + d as char else 'a' + (d - 10) as char
  }

  /** The last `n` hexadecimal digits of `v`, most significant first. */
  function Hex(v: nat, n: nat): (s: string)
    ensures |s| == n
    ensures forall i :: 0 <= i < n ==> ('0' <= s[i] <= '9') || ('a' <= s[i] <= 'f')
  {
    if n == 0 then "" else Hex(v / 16, n - 1) + [HexDigit(v % 16)]
  }

  /** `Guid.ToString()`: 32 hexadecimal digits in groups of 8, 4, 4, 4 and 12. */
  function GuidText(id: Guid): (s: string)
    ensures |s| == 36 && s[8] == '-' && s[13] == '-' && s[18] == '-' && s[23] == '-'
  {
    var h := Hex(id as nat, 32);
    h[..8] + "-" + h[8..12] + "-" + h[12..16] + "-" + h[16..20] + "-" + h[20..]
  }

  /** The message for an id that is not stored. */
  function NotFoundMessage(id: Guid): string {
    CouldNotFindPrefix + GuidText(id)
  }

  class BasicInMemoryMazeRepository {
    /** `_mazeDataStore`. */
    var mazeDataStore: map<Guid, MazeConfiguration>

    /** Every entity is stored under its own id. */
    ghost predicate Valid()
      reads this
    {
      forall k :: k in mazeDataStore ==> mazeDataStore[k].id == k
    }

    constructor ()
      ensures mazeDataStore == map[] && Valid()
    {
      mazeDataStore := map[];
    }

    /** `Add`: stores an entity under a fresh id; a taken id throws and
        changes nothing. */
    method Add(entity: MazeConfiguration) returns (r: Outcome<Unit>)
      modifies this
      ensures entity.id in old(mazeDataStore) ==>
        r == Threw(ArgumentException(DuplicateIdMessage)) && mazeDataStore == old(mazeDataStore)
      ensures entity.id !in old(mazeDataStore) ==>
        r == Returned(Unit) && mazeDataStore == old(mazeDataStore)[entity.id := entity]
      ensures old(Valid()) ==> Valid()
    {
      if entity.id in mazeDataStore {
        return Threw(ArgumentException(DuplicateIdMessage));
      }
      mazeDataStore := mazeDataStore[entity.id := entity];
      return Returned(Unit);
    }

    /** `Delete`: removes a stored id and nothing else; a missing id throws. */
    method Delete(id: Guid) returns (r: Outcome<Unit>)
      modifies this
      ensures id in old(mazeDataStore) ==>
        r == Returned(Unit) && mazeDataStore == old(mazeDataStore) - {id}
      ensures id !in old(mazeDataStore) ==>
        r == Threw(ArgumentException(MissingIdMessage)) && mazeDataStore == old(mazeDataStore)
      ensures old(Valid()) ==> Valid()
    {
      if id !in mazeDataStore {
        return Threw(ArgumentException(MissingIdMessage));
      }
      mazeDataStore := mazeDataStore - {id};
      return Returned(Unit);
    }

    /** `Get`: the entity stored under `id`, or a `NullReferenceException`
        naming the id. */
    method Get(id: Guid) returns (r: Outcome<MazeConfiguration>)
      ensures id in mazeDataStore ==> r == Returned(mazeDataStore[id])
      ensures id !in mazeDataStore ==> r == Threw(NullReferenceException(NotFoundMessage(id)))
      ensures Valid() && r.Returned? ==> r.value.id == id
    {
      if id in mazeDataStore {
        return Returned(mazeDataStore[id]);
      }
      return Threw(NullReferenceException(NotFoundMessage(id)));
    }

    /** `GetAll`: the stored entities, each once, in some order. */
    method GetAll() returns (r: seq<MazeConfiguration>)
      requires Valid()
      ensures forall e :: e in r <==> e in mazeDataStore.Values
      ensures Distinct(r) && |r| == |mazeDataStore|
    {
      r := [];
      var pending := mazeDataStore.Keys;
      while pending != {}
        invariant pending <= mazeDataStore.Keys
        invariant forall e :: e in r <==> e.id in mazeDataStore && e.id !in pending && mazeDataStore[e.id] == e
        invariant Distinct(r) && |r| + |pending| == |mazeDataStore|
        decreases pending
      {
        var id :| id in pending;
        var e := mazeDataStore[id];
        assert forall i :: 0 <= i < |r| ==> r[i] != e;
        r := r + [e];
        pending := pending - {id};
      }
    }

    /** `Update`: replaces the entity stored under its id and nothing else;
        a missing id throws an `ArgumentException` naming it. */
    method Update(entity: MazeConfiguration) returns (r: Outcome<Unit>)
      modifies this
      ensures entity.id in old(mazeDataStore) ==>
        r == Returned(Unit) && mazeDataStore == old(mazeDataStore)[entity.id := entity]
      ensures entity.id !in old(mazeDataStore) ==>
        r == Threw(ArgumentException(NotFoundMessage(entity.id))) && mazeDataStore == old(mazeDataStore)
      ensures old(Valid()) ==> Valid()
    {
      if entity.id in mazeDataStore {
        mazeDataStore := mazeDataStore[entity.id := entity];
        return Returned(Unit);
      }
      return Threw(ArgumentException(NotFoundMessage(entity.id)));
    }
  }

  /** Adding under a fresh id and then getting that id returns the entity;
      deleting it again makes the get throw. */
  method AddGetDelete(repo: BasicInMemoryMazeRepository, entity: MazeConfiguration)
    returns (added: Outcome<Unit>, got: Outcome<MazeConfiguration>, deleted: Outcome<Unit>, gone: Outcome<MazeConfiguration>)
    requires entity.id !in repo.mazeDataStore
    modifies repo
    ensures added == Returned(Unit) && got == Returned(entity) && deleted == Returned(Unit)
    ensures gone == Threw(NullReferenceException(NotFoundMessage(entity.id)))
    ensures repo.mazeDataStore == old(repo.mazeDataStore)
  {
    added := repo.Add(entity);
    got := repo.Get(entity.id);
    deleted := repo.Delete(entity.id);
    gone := repo.Get(entity.id);
  }
}
