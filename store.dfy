/** The three tables behind the route handlers and the handlers themselves,
    with HTTP and sqlite stripped away: `blogs` and `tags` are maps from
    their AUTOINCREMENT ids, `blog_tags` is a set of (blog id, tag id) pairs. */
module BlogStore {
  import opened Requests
  import opened TagNormalizer
  import opened Like
  import opened Ascii

  /** A calendar day as a day number. `DATE('now')` is the parameter `today`. */
  type Date = nat

  /** A row of `blogs`, without its id. */
  datatype Post = Post(title: string, content: string, category: Option<string>, createdAt: Date, updatedAt: Date)

  /** The JSON object the handlers return for one post. */
  datatype PostView = PostView(
    id: int, title: string, content: string, category: Option<string>,
    tags: seq<string>, createdAt: Date, updatedAt: Date)

  /** What a handler answers; the comments give the HTTP status. */
  datatype Outcome =
    | Created(message: string, view: PostView)  // 201, the post under a message
    | Ok(view: PostView)                        // 200, one post
    | Listing(views: seq<PostView>)             // 200, a list of posts
    | NoContent                                 // 204
    | BadRequest(message: string)               // 400
    | NotFound(message: string)                 // 404
    | InternalError                             // 500: an exception the handler does not catch

  /** A row of `blog_tags`: (blog_id, tag_id). */
  type Link = (int, int)

  /** `name UNIQUE`: no two rows of `tags` share a name. */
  ghost predicate UniqueNames(tags: map<int, string>) {
    forall a, b :: a in tags && b in tags && tags[a] == tags[b] ==> a == b
  }

  /** `SELECT tag_id FROM blog_tags WHERE blog_id = ?`. */
  function TagIdsOf(links: set<Link>, blogId: int): (r: set<int>)
    ensures forall t :: t in r <==> (blogId, t) in links
  {
    set l | l in links && l.0 == blogId :: l.1
  }

  /** The names of the tags linked to `blogId`. */
  ghost function LinkedNames(tags: map<int, string>, links: set<Link>, blogId: int): set<string> {
    set t | t in TagIdsOf(links, blogId) && t in tags :: tags[t]
  }

  /** `t IN (SELECT tag_id FROM blog_tags)`. */
  predicate IsLinked(links: set<Link>, t: int) {
    exists l :: l in links && l.1 == t
  }

  /** The ids of the tag rows whose name is one of `names`. */
  ghost function NamedIds(tags: map<int, string>, names: seq<string>): set<int> {
    set t | t in tags && tags[t] in names
  }

  predicate Distinct<T(==)>(s: seq<T>) {
    forall i, j :: 0 <= i < j < |s| ==> s[i] != s[j]
  }

  /** Appending a new element keeps a list free of repeats. */
  lemma DistinctSnoc<T>(s: seq<T>, x: T)
    requires Distinct(s) && x !in s
    ensures Distinct(s + [x])
  {
    forall i, j | 0 <= i < j < |s| + 1
      ensures (s + [x])[i] != (s + [x])[j]
    {
      if j == |s| {
        assert (s + [x])[i] == s[i];
      }
    }
  }

  /** The ids of a list of posts, in order. */
  function IdsOf(views: seq<PostView>): (r: seq<int>)
    ensures |r| == |views|
    ensures forall k :: 0 <= k < |views| ==> r[k] == views[k].id
  {
    seq(|views|, k requires 0 <= k < |views| => views[k].id)
  }

  /** The listing filter. No term, or an empty one, selects every post;
      otherwise `title LIKE ? OR content LIKE ? OR category LIKE ?`, where a
      NULL category matches nothing. */
  predicate Selected(p: Post, term: Option<string>)
    ensures term.None? || term.value == [] ==> Selected(p, term)
    ensures Selected(p, term) && term.Some? && term.value != [] ==>
      || |term.value| <= |p.title| || |term.value| <= |p.content|
      || (p.category.Some? && |term.value| <= |p.category.value|)
  {
    || term.None? || term.value == []
    || ContainsIgnoringCase(p.title, term.value)
    || ContainsIgnoringCase(p.content, term.value)
    || (p.category.Some? && ContainsIgnoringCase(p.category.value, term.value))
  }

  /** A non-empty term selects a post exactly when, lower-cased, it is a
      substring of the lower-cased title, content or category. */
  lemma SelectedIff(p: Post, t: string)
    requires t != []
    ensures Selected(p, Some(t)) <==>
      || IsSubstring(Lower(t), Lower(p.title))
      || IsSubstring(Lower(t), Lower(p.content))
      || (p.category.Some? && IsSubstring(Lower(t), Lower(p.category.value)))
  {
    ContainsIgnoringCaseIff(p.title, t);
    ContainsIgnoringCaseIff(p.content, t);
    if p.category.Some? {
      ContainsIgnoringCaseIff(p.category.value, t);
    }
  }

  function View(id: int, p: Post, names: seq<string>): PostView {
    PostView(id, p.title, p.content, p.category, names, p.createdAt, p.updatedAt)
  }

  /** The distinct entries of a list of names. */
  function Elems(names: seq<string>): set<string> {
    set n | n in names
  }

  /** Appending a name adds it to the distinct names. */
  lemma ElemsSnoc(init: seq<string>, last: string)
    ensures Elems(init + [last]) == Elems(init) + {last}
  {
    assert forall n :: n in init + [last] <==> n in init || n == last;
  }

  lemma {:induction false} ElemsBound(names: seq<string>)
    ensures |Elems(names)| <= |names|
  {
    if names == [] {
      assert Elems(names) == {};
    } else {
      var init := names[..|names| - 1];
      ElemsBound(init);
      assert names == init + [names[|names| - 1]];
      ElemsSnoc(init, names[|names| - 1]);
    }
  }

  /** Naming a name again selects no further row. */
  lemma NamedIdsRepeat(tags: map<int, string>, init: seq<string>, last: string)
    requires last in init
    ensures NamedIds(tags, init + [last]) == NamedIds(tags, init)
  {
    assert forall n :: n in init + [last] <==> n in init;
  }

  /** Naming a new name selects exactly the one row that holds it. */
  lemma NamedIdsFresh(tags: map<int, string>, init: seq<string>, last: string, t0: int)
    requires UniqueNames(tags)
    requires t0 in tags && tags[t0] == last && last !in init
    ensures t0 !in NamedIds(tags, init)
    ensures NamedIds(tags, init + [last]) == NamedIds(tags, init) + {t0}
  {
    assert forall n :: n in init + [last] <==> n in init || n == last;
    forall t
      ensures t in NamedIds(tags, init + [last]) <==> t in NamedIds(tags, init) + {t0}
    {
      if t in tags && tags[t] == last {
        assert t == t0;
      }
    }
  }

  /** With unique names, a list of names that all have a row picks out
      exactly one row per distinct name: repeated tags give one link. */
  lemma {:induction false} NamedIdsCount(tags: map<int, string>, names: seq<string>)
    requires UniqueNames(tags)
    requires forall n :: n in names ==> n in tags.Values
    ensures |NamedIds(tags, names)| == |Elems(names)|
  {
    if names == [] {
      assert NamedIds(tags, names) == {};
      assert Elems(names) == {};
    } else {
      var init := names[..|names| - 1];
      var last := names[|names| - 1];
      assert names == init + [last];
      NamedIdsCount(tags, init);
      ElemsSnoc(init, last);
      if last in init {
        NamedIdsRepeat(tags, init, last);
        assert Elems(names) == Elems(init);
      } else {
        ValueHasKey(tags, last);
        var t0 :| t0 in tags && tags[t0] == last;
        NamedIdsFresh(tags, init, last, t0);
      }
    }
  }

  /** A post linked to exactly the rows named in `names` shows exactly the
      distinct entries of `names`. */
  lemma LinkedNamesOf(tags: map<int, string>, links: set<Link>, blogId: int, names: seq<string>)
    requires forall t :: (blogId, t) in links <==> t in tags && tags[t] in names
    requires forall n :: n in names ==> n in tags.Values
    ensures LinkedNames(tags, links, blogId) == Elems(names)
  {
    forall n | n in Elems(names)
      ensures n in LinkedNames(tags, links, blogId)
    {
      ValueHasKey(tags, n);
      var t :| t in tags && tags[t] == n;
      assert t in TagIdsOf(links, blogId);
    }
    forall n | n in LinkedNames(tags, links, blogId)
      ensures n in Elems(names)
    {
      if n !in names {
        assert false;
      }
    }
  }

  /** A non-empty set has a member to pick. */
  lemma NonEmptyHasMember(s: set<int>)
    requires s != {}
    ensures exists x :: x in s
  {
    if forall x :: x !in s {
      assert false;
    }
  }

  /** A value of a map is stored under some key. */
  lemma ValueHasKey(m: map<int, string>, v: string)
    requires v in m.Values
    ensures exists k :: k in m && m[k] == v
  {
    if forall k :: k in m ==> m[k] != v {
      assert false;
    }
  }

  /** Inserting a row under a fresh id adds exactly its value. */
  lemma InsertFreshValues(m: map<int, string>, k: int, v: string)
    requires k !in m
    ensures forall n :: n in m[k := v].Values <==> n in m.Values || n == v
  {
    forall n | n in m.Values
      ensures n in m[k := v].Values
    {
      ValueHasKey(m, n);
      var j :| j in m && m[j] == n;
      assert m[k := v][j] == n;
    }
    assert m[k := v][k] == v;
  }

  class Store {
    var blogs: map<int, Post>
    var tags: map<int, string>
    var links: set<Link>
    /** The next AUTOINCREMENT id of `blogs` and of `tags`. */
    var nextBlogId: int
    var nextTagId: int

    ghost predicate Valid()
      reads this
    {
      && 1 <= nextBlogId && 1 <= nextTagId
      && (forall id :: id in blogs ==> 1 <= id < nextBlogId)
      && (forall t :: t in tags ==> 1 <= t < nextTagId)
      && UniqueNames(tags)
      && (forall t :: t in tags ==> IsNormalized(tags[t]))
      && (forall l :: l in links ==> l.0 in blogs && l.1 in tags)
    }

    /** What `view` reports of post `view.id` agrees with the tables: the
        stored fields, and each linked tag's name exactly once. */
    ghost predicate Describes(view: PostView)
      reads this
    {
      && view.id in blogs
      && view == View(view.id, blogs[view.id], view.tags)
      && Distinct(view.tags)
      && (forall n :: n in view.tags <==> n in LinkedNames(tags, links, view.id))
    }

    /** The tables of a new database: all empty. */
    constructor ()
      ensures Valid()
      ensures blogs == map[] && tags == map[] && links == {}
      ensures nextBlogId == 1 && nextTagId == 1
    {
      blogs, tags, links := map[], map[], {};
      nextBlogId, nextTagId := 1, 1;
    }

    /** `INSERT OR IGNORE INTO tags (name) VALUES (?)` followed by
        `SELECT id FROM tags WHERE name = ?`: the id of the row named
        `name`, which is added under the next id if there was none. Under
        AUTOINCREMENT the insert draws that id before the UNIQUE check, so
        an ignored insert still uses it up and leaves a gap. */
    method FindOrInsertTag(name: string) returns (tagId: int)
      requires Valid() && IsNormalized(name)
      modifies this
      ensures Valid()
      ensures blogs == old(blogs) && nextBlogId == old(nextBlogId) && links == old(links)
      ensures nextTagId == old(nextTagId) + 1
      ensures tagId in tags && tags[tagId] == name
      ensures forall t :: t in old(tags) ==> t in tags && tags[t] == old(tags)[t]
      ensures forall n :: n in tags.Values <==> n in old(tags).Values || n == name
      ensures forall t :: t in tags && t !in old(tags) ==> old(nextTagId) <= t
      ensures name !in old(tags).Values ==> tagId == old(nextTagId) && tags == old(tags)[tagId := name]
      ensures name in old(tags).Values ==> tags == old(tags)
    {
      if name !in tags.Values {
        InsertFreshValues(tags, nextTagId, name);
        tags := tags[nextTagId := name];
      }
      nextTagId := nextTagId + 1;
      ValueHasKey(tags, name);
      tagId :| tagId in tags && tags[tagId] == name;
    }

    /** The loop both writing handlers run over the tag names: insert the
        name unless present, look its id up, link it to the post. Existing
        rows are reused and kept; each new name gets one fresh row. */
    method LinkTags(blogId: int, names: seq<string>)
      requires Valid() && blogId in blogs
      requires forall k :: 0 <= k < |names| ==> IsNormalized(names[k])
      modifies this
      ensures Valid()
      ensures blogs == old(blogs) && nextBlogId == old(nextBlogId)
      ensures forall t :: t in old(tags) ==> t in tags && tags[t] == old(tags)[t]
      ensures forall n :: n in tags.Values <==> n in old(tags).Values || n in names
      ensures old(nextTagId) <= nextTagId
      ensures forall t :: t in tags && t !in old(tags) ==> old(nextTagId) <= t
      ensures forall l :: l in links <==> l in old(links) || (l.0 == blogId && l.1 in tags && tags[l.1] in names)
    {
      var i := 0;
      while i < |names|
        invariant 0 <= i <= |names|
        invariant Valid()
        invariant blogs == old(blogs) && nextBlogId == old(nextBlogId)
        invariant old(nextTagId) <= nextTagId
        invariant forall t :: t in old(tags) ==> t in tags && tags[t] == old(tags)[t]
        invariant forall n :: n in tags.Values <==> n in old(tags).Values || n in names[..i]
        invariant forall t :: t in tags && t !in old(tags) ==> old(nextTagId) <= t
        invariant forall l :: l in links <==> l in old(links) || (l.0 == blogId && l.1 in tags && tags[l.1] in names[..i])
      {
        var name := names[i];
        assert names[..i + 1] == names[..i] + [name];
        ghost var tagsBefore := tags;
        ghost var linksBefore := links;
        assert forall l :: l in linksBefore ==> l.1 in tagsBefore;
        var tagId := FindOrInsertTag(name);
        assert links == linksBefore;
        assert forall t :: t in tagsBefore ==> t in tags && tags[t] == tagsBefore[t];
        // INSERT OR IGNORE INTO blog_tags (blog_id, tag_id) VALUES (?, ?)
        links := links + {(blogId, tagId)};
        i := i + 1;
      }
      assert names[..i] == names;
    }

    /** The second half of `update`: drop every link of the post, then link
        it to `names` afresh. Links of other posts and all tag rows stay. */
    method ReplaceLinks(blogId: int, names: seq<string>)
      requires Valid() && blogId in blogs
      requires forall k :: 0 <= k < |names| ==> IsNormalized(names[k])
      modifies this
      ensures Valid()
      ensures blogs == old(blogs) && nextBlogId == old(nextBlogId)
      ensures forall t :: t in old(tags) ==> t in tags && tags[t] == old(tags)[t]
      ensures forall n :: n in tags.Values <==> n in old(tags).Values || n in names
      ensures old(nextTagId) <= nextTagId
      ensures forall t :: t in tags && t !in old(tags) ==> old(nextTagId) <= t
      ensures forall l: Link :: l.0 != blogId ==> (l in links <==> l in old(links))
      ensures forall t :: (blogId, t) in links <==> t in tags && tags[t] in names
      ensures LinkedNames(tags, links, blogId) == Elems(names)
      ensures |TagIdsOf(links, blogId)| == |Elems(names)| <= |names|
    {
      // DELETE FROM blog_tags WHERE blog_id = ?
      links := set l | l in links && l.0 != blogId;
      LinkTags(blogId, names);
      LinksOfNewSet(blogId, names);
    }

    /** Once the post's links are exactly the rows named in `names`, it has
        one link per distinct name and shows exactly those names. */
    lemma LinksOfNewSet(blogId: int, names: seq<string>)
      requires Valid()
      requires forall n :: n in names ==> n in tags.Values
      requires forall t :: (blogId, t) in links <==> t in tags && tags[t] in names
      ensures LinkedNames(tags, links, blogId) == Elems(names)
      ensures |TagIdsOf(links, blogId)| == |Elems(names)| <= |names|
    {
      forall t
        ensures t in TagIdsOf(links, blogId) <==> t in NamedIds(tags, names)
      {
      }
      assert TagIdsOf(links, blogId) == NamedIds(tags, names);
      NamedIdsCount(tags, names);
      ElemsBound(names);
      LinkedNamesOf(tags, links, blogId, names);
    }

    /** `create_post`. */
    method CreatePost(body: Body, today: Date) returns (r: Outcome)
      requires Valid()
      modifies this
      ensures Valid()
      ensures r.Created? || r.BadRequest? || r.InternalError?
      ensures r.InternalError? <==> body.NonObject?
      ensures r.BadRequest? <==> ParseCreate(body).Rejected?
      ensures r.BadRequest? ==> r.message == ParseCreate(body).message
      ensures !r.Created? ==> unchanged(this)
      ensures r.Created? ==> r.message == "Blog created successfully!"
      ensures r.Created? ==>
        var f := ParseCreate(body).value;
        var names := CleanedTags(f.tags);
        var id := old(nextBlogId);
        && id !in old(blogs)
        && blogs == old(blogs)[id := Post(f.title, f.content, f.category, today, today)]
        && nextBlogId == old(nextBlogId) + 1
        && old(nextTagId) <= nextTagId
        && (forall t :: t in tags && t !in old(tags) ==> old(nextTagId) <= t)
        && r.view == PostView(id, f.title, f.content, f.category, names, today, today)
        && (forall t :: t in old(tags) ==> t in tags && tags[t] == old(tags)[t])
        && (forall n :: n in tags.Values <==> n in old(tags).Values || n in names)
        && (forall l :: l in links <==> l in old(links) || (l.0 == id && l.1 in tags && tags[l.1] in names))
        && (forall t :: (id, t) in links <==> t in tags && tags[t] in names)
        && LinkedNames(tags, links, id) == Elems(names)
        && |TagIdsOf(links, id)| == |Elems(names)|
    {
      match ParseCreate(body)
      case Raised =>
        r := InternalError;
      case Rejected(message) =>
        r := BadRequest(message);
      case Accepted(f) =>
        var names := CleanTags(f.tags);
        // INSERT INTO blogs (title, content, category) VALUES (?, ?, ?)
        var id := nextBlogId;
        blogs := blogs[id := Post(f.title, f.content, f.category, today, today)];
        nextBlogId := nextBlogId + 1;
        LinkTags(id, names);
        LinksOfNewSet(id, names);
        r := Created("Blog created successfully!", PostView(id, f.title, f.content, f.category, names, today, today));
    }

    /** `update`. */
    method Update(id: nat, body: Body, today: Date) returns (r: Outcome)
      requires Valid()
      modifies this
      ensures Valid()
      ensures r.Ok? || r.BadRequest? || r.NotFound? || r.InternalError?
      ensures r.InternalError? <==> CheckUpdate(body).Raised?
      ensures r.BadRequest? <==> CheckUpdate(body).Rejected?
      ensures r.BadRequest? ==> r.message == CheckUpdate(body).message
      ensures r.NotFound? <==> CheckUpdate(body).Accepted? && id !in old(blogs)
      ensures r.NotFound? ==> r.message == "Blog not found"
      ensures !r.Ok? ==> unchanged(this)
      ensures r.Ok? ==>
        var f := CheckUpdate(body).value.0;
        var names := CheckUpdate(body).value.1;
        var was := old(blogs)[id];
        && blogs == old(blogs)[id := Post(f.title, f.content, f.category, was.createdAt, today)]
        && nextBlogId == old(nextBlogId)
        && old(nextTagId) <= nextTagId
        && (forall t :: t in tags && t !in old(tags) ==> old(nextTagId) <= t)
        && r.view == PostView(id, f.title, f.content, f.category, names, was.createdAt, today)
        && (forall t :: t in old(tags) ==> t in tags && tags[t] == old(tags)[t])
        && (forall n :: n in tags.Values <==> n in old(tags).Values || n in names)
        && (forall l: Link :: l.0 != id ==> (l in links <==> l in old(links)))
        && (forall t :: (id, t) in links <==> t in tags && tags[t] in names)
        && LinkedNames(tags, links, id) == Elems(names)
        && |TagIdsOf(links, id)| == |Elems(names)| <= MaxUpdateTags
    {
      var checked := CheckUpdate(body);
      if checked.Raised? {
        return InternalError;
      }
      if checked.Rejected? {
        return BadRequest(checked.message);
      }
      var (f, names) := checked.value;
      if id !in blogs {
        return NotFound("Blog not found");
      }
      // UPDATE blogs SET title = ?, content = ?, category = ?, updatedAt = DATE('now') WHERE id = ?
      var was := blogs[id];
      blogs := blogs[id := Post(f.title, f.content, f.category, was.createdAt, today)];
      ReplaceLinks(id, names);
      r := Ok(PostView(id, f.title, f.content, f.category, names, was.createdAt, today));
    }

    /** `delete`: the post, then its links, then every tag no link uses. */
    method Delete(id: nat) returns (r: Outcome)
      requires Valid()
      modifies this
      ensures Valid()
      ensures r == NoContent || r == NotFound("Blog not found")
      ensures r.NotFound? <==> id !in old(blogs)
      ensures r.NotFound? ==> unchanged(this)
      ensures r.NoContent? ==>
        && blogs == old(blogs) - {id}
        && (forall l :: l in links <==> l in old(links) && l.0 != id)
        && (forall t :: t in tags <==> t in old(tags) && IsLinked(links, t))
        && (forall t :: t in tags ==> tags[t] == old(tags)[t])
        && nextBlogId == old(nextBlogId) && nextTagId == old(nextTagId)
      ensures r.NoContent? ==> forall t :: t in tags ==> IsLinked(links, t)
      ensures r.NoContent? ==> forall l :: l in old(links) && l.0 != id ==> l.1 in tags
    {
      if id !in blogs {
        return NotFound("Blog not found");
      }
      // DELETE FROM blogs WHERE id = ?
      blogs := blogs - {id};
      // DELETE FROM blog_tags WHERE blog_id = ?
      links := set l | l in links && l.0 != id;
      // DELETE FROM tags WHERE id NOT IN (SELECT tag_id FROM blog_tags)
      tags := map t | t in tags && IsLinked(links, t) :: tags[t];
      r := NoContent;
    }

    /** The tag-name loop of `get_blog` and `get_all_blogs`: follow each
        link of the post to its tag row and collect the names. */
    method ResolveTagNames(blogId: int) returns (names: seq<string>)
      requires Valid()
      ensures Distinct(names)
      ensures forall n :: n in names <==> n in LinkedNames(tags, links, blogId)
      ensures |names| == |TagIdsOf(links, blogId)|
    {
      var ids := TagIdsOf(links, blogId);
      names := [];
      ghost var seen: set<int> := {};
      while ids != {}
        invariant ids !! seen && ids + seen == TagIdsOf(links, blogId)
        invariant Distinct(names)
        invariant forall n :: n in names <==> exists t :: t in seen && tags[t] == n
        invariant |names| == |seen|
        decreases |ids|
      {
        NonEmptyHasMember(ids);
        var t :| t in ids;
        // SELECT name FROM tags WHERE id = ?
        if t in tags {
          assert tags[t] !in names;
          DistinctSnoc(names, tags[t]);
          names := names + [tags[t]];
        }
        ids := ids - {t};
        seen := seen + {t};
      }
    }

    /** `get_blog`. */
    method GetBlog(id: nat) returns (r: Outcome)
      requires Valid()
      ensures r.Ok? || r.NotFound?
      ensures r.NotFound? <==> id !in blogs
      ensures r.NotFound? ==> r.message == "Not found"
      ensures r.Ok? ==> r.view.id == id && Describes(r.view)
      ensures r.Ok? ==> |r.view.tags| == |TagIdsOf(links, id)|
    {
      if id !in blogs {
        return NotFound("Not found");
      }
      var names := ResolveTagNames(id);
      r := Ok(View(id, blogs[id], names));
    }

    /** The loop of `get_all_blogs` over the selected rows: one view per
        row, each with its tag names. */
    method ViewsOf(rows: set<int>) returns (views: seq<PostView>)
      requires Valid()
      requires forall id :: id in rows ==> id in blogs
      ensures forall id :: id in IdsOf(views) <==> id in rows
      ensures Distinct(IdsOf(views))
      ensures forall k :: 0 <= k < |views| ==> Describes(views[k])
    {
      var left := rows;
      ghost var done: set<int> := {};
      views := [];
      while left != {}
        invariant left !! done && left + done == rows
        invariant forall id :: id in IdsOf(views) <==> id in done
        invariant Distinct(IdsOf(views))
        invariant forall k :: 0 <= k < |views| ==> Describes(views[k])
        decreases |left|
      {
        NonEmptyHasMember(left);
        var id :| id in left;
        var names := ResolveTagNames(id);
        var view := View(id, blogs[id], names);
        ghost var ids := IdsOf(views);
        assert id !in ids;
        DistinctSnoc(ids, id);
        assert IdsOf(views + [view]) == ids + [id];
        ghost var before := views;
        views := views + [view];
        forall k | 0 <= k < |views|
          ensures Describes(views[k])
        {
          if k < |before| {
            assert views[k] == before[k];
          }
        }
        left := left - {id};
        done := done + {id};
      }
    }

    /** `get_all_blogs`: every selected post once, in no particular order;
        an empty selection is a 404. */
    method GetAllBlogs(term: Option<string>) returns (r: Outcome)
      requires Valid()
      ensures r.Listing? || r.NotFound?
      ensures r.NotFound? <==> forall id :: id in blogs ==> !Selected(blogs[id], term)
      ensures r.NotFound? ==> r.message == "No blogs found"
      ensures r.Listing? ==> forall id :: id in IdsOf(r.views) <==> id in blogs && Selected(blogs[id], term)
      ensures r.Listing? ==> Distinct(IdsOf(r.views))
      ensures r.Listing? ==> forall k :: 0 <= k < |r.views| ==> Describes(r.views[k])
    {
      // SELECT * FROM blogs [WHERE title LIKE ? OR content LIKE ? OR category LIKE ?]
      var rows := set id | id in blogs && Selected(blogs[id], term);
      assert forall id :: id in blogs && Selected(blogs[id], term) <==> id in rows;
      if rows == {} {
        return NotFound("No blogs found");
      }
      NonEmptyHasMember(rows);
      var views := ViewsOf(rows);
      r := Listing(views);
    }
  }
}
