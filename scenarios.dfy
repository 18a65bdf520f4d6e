/** Handler calls in sequence, stated as what a client observes. */
module Scenarios {
  import opened Requests
  import opened BlogStore

  /** A created post reads back with the same fields and the same tag
      names (as a set: the read does not keep the request's order and
      reports a repeated tag once). */
  method CreateThenGet(store: Store, body: Body, today: Date) returns (created: Outcome, fetched: Outcome)
    requires store.Valid()
    modifies store
    ensures store.Valid()
    ensures created.Created? ==>
      && fetched.Ok?
      && fetched.view.id == created.view.id
      && fetched.view.title == created.view.title
      && fetched.view.content == created.view.content
      && fetched.view.category == created.view.category
      && fetched.view.createdAt == created.view.createdAt == today
      && fetched.view.updatedAt == created.view.updatedAt == today
      && Elems(fetched.view.tags) == Elems(created.view.tags)
      && Distinct(fetched.view.tags)
  {
    created := store.CreatePost(body, today);
    fetched := created;
    if created.Created? {
      fetched := store.GetBlog(created.view.id);
      assert forall n :: n in fetched.view.tags <==> n in Elems(created.view.tags);
    }
  }

  /** After an update the post reads back with the new fields and only the
      new tag names, and its creation date is the one it had before. */
  method UpdateThenGet(store: Store, id: nat, body: Body, today: Date) returns (updated: Outcome, fetched: Outcome)
    requires store.Valid()
    modifies store
    ensures store.Valid()
    ensures updated.Ok? ==>
      && id in old(store.blogs)
      && fetched.Ok?
      && fetched.view.title == updated.view.title
      && fetched.view.content == updated.view.content
      && fetched.view.category == updated.view.category
      && fetched.view.createdAt == old(store.blogs)[id].createdAt
      && fetched.view.updatedAt == today
      && Elems(fetched.view.tags) == Elems(updated.view.tags)
      && |fetched.view.tags| <= MaxUpdateTags
  {
    updated := store.Update(id, body, today);
    fetched := updated;
    if updated.Ok? {
      fetched := store.GetBlog(id);
      assert forall n :: n in fetched.view.tags <==> n in Elems(updated.view.tags);
    }
  }

  /** A deleted post is gone for good. */
  method DeleteThenGet(store: Store, id: nat) returns (deleted: Outcome, fetched: Outcome)
    requires store.Valid()
    modifies store
    ensures store.Valid()
    ensures deleted.NoContent? <==> id in old(store.blogs)
    ensures fetched == NotFound("Not found")
  {
    deleted := store.Delete(id);
    fetched := store.GetBlog(id);
  }
}
