/**
 * The post resolver: create, read, update and delete over the `post` table,
 * which the resolver's mutations change in place.
 */
module PostService {
  import opened Wrappers

  /** A row of the `post` table, with the columns the resolver touches. */
  datatype Post = Post(id: int, title: string)

  /** Every row is stored under its own id. */
  ghost predicate KeyedById(table: map<int, Post>)
  {
    forall k :: k in table ==> table[k].id == k
  }

  /** The ids of the table that fall in [lo, hi). */
  ghost function IdsIn(table: map<int, Post>, lo: int, hi: int): set<int>
  {
    set k | k in table && lo <= k < hi
  }

  /**
   * `Post.find()` as a scan of the ids in [lo, hi): every row in that range,
   * once each, in increasing id order, and nothing else.
   */
  function Scan(table: map<int, Post>, lo: int, hi: int): (rows: seq<Post>)
    requires KeyedById(table)
    decreases hi - lo
    ensures forall i :: 0 <= i < |rows| ==> lo <= rows[i].id < hi && rows[i].id in table && table[rows[i].id] == rows[i]
    ensures forall k :: lo <= k < hi && k in table ==> table[k] in rows
    ensures forall i, j :: 0 <= i < j < |rows| ==> rows[i].id < rows[j].id
  {
    if lo >= hi then []
    else if lo in table then [table[lo]] + Scan(table, lo + 1, hi)
    else Scan(table, lo + 1, hi)
  }

  /** The scan yields as many rows as there are ids in the range. */
  lemma {:induction false} ScanCount(table: map<int, Post>, lo: int, hi: int)
    requires KeyedById(table)
    decreases hi - lo
    ensures |Scan(table, lo, hi)| == |IdsIn(table, lo, hi)|
  {
    if lo >= hi {
      assert IdsIn(table, lo, hi) == {};
    } else {
      ScanCount(table, lo + 1, hi);
      if lo in table {
        assert IdsIn(table, lo, hi) == {lo} + IdsIn(table, lo + 1, hi);
      } else {
        assert IdsIn(table, lo, hi) == IdsIn(table, lo + 1, hi);
      }
    }
  }

  class PostResolver {
    var table: map<int, Post>
    /** The next value of the table's id sequence. */
    var nextId: int

    /** Ids come from the sequence and every row sits under its own id. */
    ghost predicate Valid()
      reads this
    {
      && 1 <= nextId
      && KeyedById(table)
      && (forall k :: k in table ==> 1 <= k < nextId)
    }

    constructor ()
      ensures Valid() && table == map[]
    {
      table := map[];
      nextId := 1;
    }

    /** `posts`: every stored post exactly once, ordered by id. */
    function Posts(): (rows: seq<Post>)
      reads this
      requires Valid()
      ensures |rows| == |table|
      ensures forall i :: 0 <= i < |rows| ==> rows[i].id in table && table[rows[i].id] == rows[i]
      ensures forall k :: k in table ==> table[k] in rows
      ensures forall i, j :: 0 <= i < j < |rows| ==> rows[i].id < rows[j].id
    {
      ScanCount(table, 1, nextId);
      assert IdsIn(table, 1, nextId) == table.Keys;
      Scan(table, 1, nextId)
    }

    /** `post(id)`: the stored post with that id, or nothing. */
    function PostById(id: int): (r: Option<Post>)
      reads this
      requires Valid()
      ensures r.Some? <==> id in table
      ensures r.Some? ==> r.value == table[id] && r.value.id == id
    {
      if id in table then Some(table[id]) else None
    }

    /** `createPost(title)`: one new row under a fresh id; existing rows stay as they were. */
    method CreatePost(title: string) returns (p: Post)
      requires Valid()
      modifies this
      ensures Valid()
      ensures p.title == title && p.id !in old(table)
      ensures table == old(table)[p.id := p]
      ensures nextId == old(nextId) + 1
      ensures PostById(p.id) == Some(p)
    {
      p := Post(nextId, title);
      table := table[nextId := p];
      nextId := nextId + 1;
    }

    /**
     * `updatePost(id, title)`; `title == None` stands for an omitted argument.
     * The answer is the row as it was read before the update.
     */
    method UpdatePost(id: int, title: Option<string>) returns (r: Option<Post>)
      requires Valid()
      modifies this`table
      ensures Valid()
      ensures id !in old(table) ==> r == None && table == old(table)
      ensures id in old(table) ==> r == Some(old(table)[id])
      ensures id in old(table) && title.Some? ==> table == old(table)[id := old(table)[id].(title := title.value)]
      ensures title.None? ==> table == old(table)
    {
      var post := PostById(id);
      if post.None? {
        return None;
      }
      if title.Some? {
        table := table[id := table[id].(title := title.value)];
      }
      return post;
    }

    /** `deletePost(id)`: always true; the id is gone afterwards and the other rows are untouched. */
    method DeletePost(id: int) returns (ok: bool)
      requires Valid()
      modifies this`table
      ensures Valid()
      ensures ok
      ensures id !in table
      ensures table == old(table) - {id}
      ensures id !in old(table) ==> table == old(table)
    {
      table := table - {id};
      return true;
    }
  }

  /** After an update that sets a new title, the mutation's answer still carries the old one. */
  method UpdateAnswersStaleTitle(s: PostResolver, title: string, newTitle: string)
      returns (created: Post, answer: Option<Post>)
    requires s.Valid()
    modifies s
    ensures s.Valid()
    ensures answer == Some(created) && created.title == title
    ensures s.PostById(created.id) == Some(Post(created.id, newTitle))
  {
    created := s.CreatePost(title);
    answer := s.UpdatePost(created.id, Some(newTitle));
  }
}
