/** The posts collection: creation, the visibility listing, comments, owner
    edits, owner-or-admin deletion and the like toggle. Each operation reads the
    whole collection and yields the collection it writes back.
 */
module Posts {
  import opened Seqs
  import opened Records

  function HasId(postId: string): Post -> bool
  {
    (p: Post) => p.id == postId
  }

  function OwnedWithId(postId: string, userId: string): Post -> bool
  {
    (p: Post) => p.id == postId && p.userId == userId
  }

  function LacksId(postId: string): Post -> bool
  {
    (p: Post) => p.id != postId
  }

  function VisibleTo(userId: string): Post -> bool
  {
    (p: Post) => p.userId == userId || p.isPublic
  }

  function Differs(userId: string): string -> bool
  {
    (x: string) => x != userId
  }

  ghost predicate NoPostWithId(posts: seq<Post>, postId: string)
  {
    forall j :: 0 <= j < |posts| ==> posts[j].id != postId
  }

  /** `i` is the post `find` selects by id: the first with that id. */
  ghost predicate FirstWithId(posts: seq<Post>, postId: string, i: int)
  {
    IsFirst(posts, HasId(postId), i)
  }

  /** `i` is the post the edit handler selects: the first with that id and that owner. */
  ghost predicate FirstOwnedWithId(posts: seq<Post>, postId: string, userId: string, i: int)
  {
    IsFirst(posts, OwnedWithId(postId, userId), i)
  }

  /** No post holds the same user id twice in its likes. */
  ghost predicate LikesDistinct(posts: seq<Post>)
  {
    forall j :: 0 <= j < |posts| ==> NoDuplicates(posts[j].likes)
  }

  /** The index of the post `find` selects by id. */
  function FindPost(posts: seq<Post>, postId: string): (r: Option<nat>)
    ensures r.None? <==> NoPostWithId(posts, postId)
    ensures r.Some? ==> FirstWithId(posts, postId, r.value)
  {
    FirstIndex(posts, HasId(postId))
  }

  /** `likes.filter(id => id !== userId)`. */
  function RemoveAll(likes: seq<string>, userId: string): (r: seq<string>)
    ensures userId !in r
    ensures forall x :: x != userId ==> multiset(r)[x] == multiset(likes)[x]
  {
    Filter(likes, Differs(userId))
  }

  /** Unliking keeps the remaining likes in stored order: it removes from a concatenation part by part,
      and keeps a single like exactly when it is someone else's. */
  lemma RemoveAllKeepsOrder(a: seq<string>, b: seq<string>, userId: string, x: string)
    ensures RemoveAll(a + b, userId) == RemoveAll(a, userId) + RemoveAll(b, userId)
    ensures RemoveAll([x], userId) == if x == userId then [] else [x]
  {
    FilterAppend(a, b, Differs(userId));
    assert [x][1..] == [];
  }

  /** Creating a post appends exactly one post with the given owner, title and
      description, no comments and no likes; earlier posts stay as they were. */
  function CreatePost(posts: seq<Post>, freshId: string, userId: string,
                      title: string, description: string): (r: Step<Post, Post>)
    ensures r.result.Ok?
    ensures r.records == posts + [r.result.value]
    ensures var p := r.result.value;
      && p.id == freshId && p.userId == userId && p.title == title && p.description == description
      && p.comments == [] && p.likes == [] && !p.isPublic
  {
    var post := Post(freshId, userId, title, description, [], [], false);
    Step(Ok(post), posts + [post])
  }

  /** The listing: the posts the requester owns or that are public, each as often as stored. */
  function ListVisible(posts: seq<Post>, userId: string): (r: seq<Post>)
    ensures forall p {:trigger p in r} :: p in r <==> p in posts && (p.userId == userId || p.isPublic)
    ensures forall p {:trigger multiset(r)[p]} ::
      multiset(r)[p] == (if p.userId == userId || p.isPublic then multiset(posts)[p] else 0)
  {
    Filter(posts, VisibleTo(userId))
  }

  /** The listing keeps stored order: listing a concatenation lists each part in turn. */
  lemma ListVisibleAppend(a: seq<Post>, b: seq<Post>, userId: string)
    ensures ListVisible(a + b, userId) == ListVisible(a, userId) + ListVisible(b, userId)
  {
    FilterAppend(a, b, VisibleTo(userId));
  }

  /** A new post shows up at the end of its owner's listing, after everything listed before. */
  lemma CreateThenList(posts: seq<Post>, freshId: string, userId: string, title: string, description: string)
    ensures var r := CreatePost(posts, freshId, userId, title, description);
            ListVisible(r.records, userId) == ListVisible(posts, userId) + [r.result.value]
  {
    var r := CreatePost(posts, freshId, userId, title, description);
    ListVisibleAppend(posts, [r.result.value], userId);
    assert ListVisible([r.result.value], userId) == [r.result.value];
  }

  /** The new comment a comment request adds. */
  function NewComment(commentId: string, userId: string, text: string): Comment
  {
    Comment(commentId, userId, text, [])
  }

  /** Adding a comment: not found when no post has the id; otherwise only the first such post
      changes, and only by one comment at the end of its comments. */
  function AddComment(posts: seq<Post>, postId: string, commentId: string,
                      userId: string, text: string): (r: Step<(), Post>)
    ensures |r.records| == |posts|
    ensures r.result.Err? <==> NoPostWithId(posts, postId)
    ensures r.result.Err? ==> r.result.error == PostNotFound && r.records == posts
    ensures forall i :: FirstWithId(posts, postId, i) ==>
      r.records[i] == posts[i].(comments := posts[i].comments + [NewComment(commentId, userId, text)])
    ensures forall j :: 0 <= j < |posts| && !FirstWithId(posts, postId, j) ==> r.records[j] == posts[j]
  {
    match FindPost(posts, postId)
    case None => Step(Err(PostNotFound), posts)
    case Some(i) =>
      var post := posts[i];
      var comments := post.comments + [NewComment(commentId, userId, text)];
      Step(Ok(()), posts[i := post.(comments := comments)])
  }

  /** When an operation changes no id, the post `find` selects by id stays the same. */
  lemma SameIdsSameFirst(a: seq<Post>, b: seq<Post>, postId: string, i: int)
    requires |a| == |b|
    requires forall j :: 0 <= j < |a| ==> a[j].id == b[j].id
    ensures FirstWithId(a, postId, i) <==> FirstWithId(b, postId, i)
  {
  }

  /** Two comments added in turn to the same post follow its earlier comments, in the order they were added. */
  lemma AddCommentTwiceKeepsOrder(posts: seq<Post>, postId: string, i: int,
                                  id1: string, user1: string, text1: string,
                                  id2: string, user2: string, text2: string)
    requires FirstWithId(posts, postId, i)
    ensures var once := AddComment(posts, postId, id1, user1, text1).records;
            var twice := AddComment(once, postId, id2, user2, text2);
            && twice.result.Ok?
            && twice.records[i].comments
               == posts[i].comments + [NewComment(id1, user1, text1), NewComment(id2, user2, text2)]
  {
    var once := AddComment(posts, postId, id1, user1, text1).records;
    forall j | 0 <= j < |posts|
      ensures once[j].id == posts[j].id
    {
      if !FirstWithId(posts, postId, j) {
        assert once[j] == posts[j];
      }
    }
    SameIdsSameFirst(posts, once, postId, i);
    var twice := AddComment(once, postId, id2, user2, text2);
    assert twice.records[i].comments == once[i].comments + [NewComment(id2, user2, text2)];
  }

  /** Editing: refused unless some post has both the id and the requester as owner; otherwise only
      the title and description of the first such post change, and the updated post is returned. */
  function EditPost(posts: seq<Post>, postId: string, userId: string,
                    title: string, description: string): (r: Step<Post, Post>)
    ensures |r.records| == |posts|
    ensures r.result.Err? <==> forall j :: 0 <= j < |posts| ==> !(posts[j].id == postId && posts[j].userId == userId)
    ensures r.result.Err? ==> r.result.error == PermissionDenied && r.records == posts
    ensures forall i :: FirstOwnedWithId(posts, postId, userId, i) ==>
      && r.records[i] == posts[i].(title := title, description := description)
      && r.result == Ok(r.records[i])
    ensures forall j :: 0 <= j < |posts| && !FirstOwnedWithId(posts, postId, userId, j) ==> r.records[j] == posts[j]
  {
    match FirstIndex(posts, OwnedWithId(postId, userId))
    case None => Step(Err(PermissionDenied), posts)
    case Some(i) =>
      var post := posts[i].(title := title, description := description);
      Step(Ok(post), posts[i := post])
  }

  /** An edit by anyone who owns no post with the id leaves every title and description as it was. */
  lemma EditByNonOwnerChangesNothing(posts: seq<Post>, postId: string, userId: string,
                                     title: string, description: string)
    requires forall j :: 0 <= j < |posts| && posts[j].id == postId ==> posts[j].userId != userId
    ensures EditPost(posts, postId, userId, title, description) == Step(Err(PermissionDenied), posts)
  {
  }

  /** The posts that survive a deletion: every post with another id, in stored order. */
  function WithoutId(posts: seq<Post>, postId: string): (r: seq<Post>)
    ensures forall p {:trigger p in r} :: p in r <==> p in posts && p.id != postId
    ensures forall p {:trigger multiset(r)[p]} :: multiset(r)[p] == (if p.id == postId then 0 else multiset(posts)[p])
  {
    Filter(posts, LacksId(postId))
  }

  /** Deleting: refused when no post has the id, or when the first post with the id belongs to someone
      else and the requester is not an admin; otherwise every post with that id is removed. */
  function DeletePost(posts: seq<Post>, postId: string, userId: string, userRole: string): (r: Step<(), Post>)
    ensures NoPostWithId(posts, postId) ==> r.result.Err?
    ensures forall i :: FirstWithId(posts, postId, i) ==>
      (r.result.Ok? <==> posts[i].userId == userId || userRole == AdminRole)
    ensures r.result.Err? ==> r.result.error == PermissionDenied && r.records == posts
    ensures r.result.Ok? ==> r.records == WithoutId(posts, postId)
  {
    match FindPost(posts, postId)
    case None => Step(Err(PermissionDenied), posts)
    case Some(i) =>
      if posts[i].userId != userId && userRole != AdminRole then Step(Err(PermissionDenied), posts)
      else Step(Ok(()), WithoutId(posts, postId))
  }

  /** Deletion keeps the survivors in stored order: deleting from a concatenation deletes from each part. */
  lemma WithoutIdAppend(a: seq<Post>, b: seq<Post>, postId: string)
    ensures WithoutId(a + b, postId) == WithoutId(a, postId) + WithoutId(b, postId)
  {
    FilterAppend(a, b, LacksId(postId));
  }

  /** When ids are unique, a permitted deletion removes exactly the post at its position and nothing else. */
  lemma DeleteWithUniqueIds(posts: seq<Post>, k: int, userId: string, userRole: string)
    requires 0 <= k < |posts|
    requires forall j :: 0 <= j < |posts| && j != k ==> posts[j].id != posts[k].id
    requires posts[k].userId == userId || userRole == AdminRole
    ensures DeletePost(posts, posts[k].id, userId, userRole) == Step(Ok(()), posts[..k] + posts[k + 1..])
  {
    assert FirstWithId(posts, posts[k].id, k);
    FilterDropsOne(posts, LacksId(posts[k].id), k);
  }

  /** After a permitted deletion no listing shows a post with that id; after a refused one the collection is as before. */
  lemma DeleteThenList(posts: seq<Post>, postId: string, userId: string, userRole: string, viewer: string)
    ensures var r := DeletePost(posts, postId, userId, userRole);
            && (r.result.Ok? ==> forall p :: p in ListVisible(r.records, viewer) ==> p.id != postId)
            && (r.result.Err? ==> ListVisible(r.records, viewer) == ListVisible(posts, viewer))
  {
  }

  /** The likes after a toggle: the user is removed everywhere if present, appended if absent. */
  function Toggled(likes: seq<string>, userId: string): (r: seq<string>)
    ensures userId in r <==> userId !in likes
    ensures forall x :: x != userId ==> multiset(r)[x] == multiset(likes)[x]
    ensures userId in r ==> multiset(r)[userId] == 1 + multiset(likes)[userId]
    ensures userId !in likes ==> r == likes + [userId]
    ensures userId in likes ==> r == RemoveAll(likes, userId)
  {
    if userId in likes then RemoveAll(likes, userId) else likes + [userId]
  }

  /** The like toggle: not found when no post has the id; otherwise only the likes of the first such
      post change, the user's membership flips, and the new number of likes is returned. */
  function ToggleLike(posts: seq<Post>, postId: string, userId: string): (r: Step<nat, Post>)
    ensures |r.records| == |posts|
    ensures r.result.Err? <==> NoPostWithId(posts, postId)
    ensures r.result.Err? ==> r.result.error == PostNotFound && r.records == posts
    ensures forall i :: FirstWithId(posts, postId, i) ==>
      && r.records[i] == posts[i].(likes := Toggled(posts[i].likes, userId))
      && r.result == Ok(|r.records[i].likes|)
    ensures forall j :: 0 <= j < |posts| && !FirstWithId(posts, postId, j) ==> r.records[j] == posts[j]
  {
    match FindPost(posts, postId)
    case None => Step(Err(PostNotFound), posts)
    case Some(i) =>
      var likes := Toggled(posts[i].likes, userId);
      Step(Ok(|likes|), posts[i := posts[i].(likes := likes)])
  }

  /** With no duplicate likes, unliking removes exactly the user's single entry and keeps the others in order. */
  lemma UnlikeWithDistinctLikes(likes: seq<string>, k: int)
    requires NoDuplicates(likes)
    requires 0 <= k < |likes|
    ensures Toggled(likes, likes[k]) == likes[..k] + likes[k + 1..]
  {
    FilterDropsOne(likes, Differs(likes[k]), k);
  }

  /** Toggling keeps every post's likes free of duplicates. */
  lemma ToggleKeepsLikesDistinct(posts: seq<Post>, postId: string, userId: string)
    requires LikesDistinct(posts)
    ensures LikesDistinct(ToggleLike(posts, postId, userId).records)
  {
    var r := ToggleLike(posts, postId, userId);
    forall j | 0 <= j < |posts|
      ensures NoDuplicates(r.records[j].likes)
    {
      if FirstWithId(posts, postId, j) {
        var likes := posts[j].likes;
        if userId in likes {
          var k :| 0 <= k < |likes| && likes[k] == userId;
          UnlikeWithDistinctLikes(likes, k);
        }
      }
    }
  }

  /** Creating a post keeps likes free of duplicates: the new post has none. */
  lemma CreateKeepsLikesDistinct(posts: seq<Post>, freshId: string, userId: string,
                                 title: string, description: string)
    requires LikesDistinct(posts)
    ensures LikesDistinct(CreatePost(posts, freshId, userId, title, description).records)
  {
    var s := CreatePost(posts, freshId, userId, title, description).records;
    assert forall j :: 0 <= j < |posts| ==> s[j] == posts[j];
  }

  /** Adding a comment keeps likes free of duplicates: no likes change. */
  lemma AddCommentKeepsLikesDistinct(posts: seq<Post>, postId: string, commentId: string,
                                     userId: string, text: string)
    requires LikesDistinct(posts)
    ensures LikesDistinct(AddComment(posts, postId, commentId, userId, text).records)
  {
    var s := AddComment(posts, postId, commentId, userId, text).records;
    assert forall j :: 0 <= j < |posts| ==> s[j].likes == posts[j].likes;
  }

  /** Editing keeps likes free of duplicates: no likes change. */
  lemma EditKeepsLikesDistinct(posts: seq<Post>, postId: string, userId: string,
                               title: string, description: string)
    requires LikesDistinct(posts)
    ensures LikesDistinct(EditPost(posts, postId, userId, title, description).records)
  {
    var s := EditPost(posts, postId, userId, title, description).records;
    assert forall j :: 0 <= j < |posts| ==> s[j].likes == posts[j].likes;
  }

  /** Deleting keeps likes free of duplicates: every surviving post was stored before. */
  lemma DeleteKeepsLikesDistinct(posts: seq<Post>, postId: string, userId: string, userRole: string)
    requires LikesDistinct(posts)
    ensures LikesDistinct(DeletePost(posts, postId, userId, userRole).records)
  {
    var s := DeletePost(posts, postId, userId, userRole).records;
    forall j | 0 <= j < |s|
      ensures NoDuplicates(s[j].likes)
    {
      assert s[j] in s;
      var k :| 0 <= k < |posts| && posts[k] == s[j];
    }
  }

  /** Without the invariant the double-toggle law fails: two likes by the same user collapse into one. */
  lemma ToggleTwiceNeedsDistinctLikes()
    ensures |Toggled(Toggled(["u", "u"], "u"), "u")| == 1
  {
    RemoveAllKeepsOrder(["u"], ["u"], "u", "u");
    assert ["u", "u"] == ["u"] + ["u"];
    assert Toggled(["u", "u"], "u") == [];
    assert Toggled([], "u") == ["u"];
  }

  /** Liking then unliking restores the likes exactly. */
  lemma LikeThenUnlike(likes: seq<string>, userId: string)
    requires userId !in likes
    ensures Toggled(Toggled(likes, userId), userId) == likes
  {
    var once := likes + [userId];
    assert Toggled(likes, userId) == once;
    assert Toggled(once, userId) == Filter(once, Differs(userId));
    FilterAppend(likes, [userId], Differs(userId));
    FilterKeepsAll(likes, Differs(userId));
    assert Filter([userId], Differs(userId)) == [];
    assert likes + [] == likes;
  }

  /** With no duplicate likes, unliking then liking moves the user's entry to the end. */
  lemma UnlikeThenLike(likes: seq<string>, k: int)
    requires NoDuplicates(likes)
    requires 0 <= k < |likes|
    ensures Toggled(Toggled(likes, likes[k]), likes[k]) == likes[..k] + likes[k + 1..] + [likes[k]]
  {
    var userId := likes[k];
    UnlikeWithDistinctLikes(likes, k);
    var once := likes[..k] + likes[k + 1..];
    assert userId !in once;
  }

  /** On one post's likes: toggling twice restores their number and their members, and restores
      them exactly when the user was absent. */
  lemma ToggledTwice(likes: seq<string>, userId: string)
    requires NoDuplicates(likes)
    ensures |Toggled(Toggled(likes, userId), userId)| == |likes|
    ensures forall x :: x in Toggled(Toggled(likes, userId), userId) <==> x in likes
    ensures userId !in likes ==> Toggled(Toggled(likes, userId), userId) == likes
  {
    if userId in likes {
      var k :| 0 <= k < |likes| && likes[k] == userId;
      UnlikeThenLike(likes, k);
      MoveToEnd(likes, k);
    } else {
      LikeThenUnlike(likes, userId);
    }
  }

  /** Toggling a post that exists rewrites exactly the likes of the first post with the id. */
  lemma ToggleAt(posts: seq<Post>, postId: string, userId: string, i: int)
    requires FirstWithId(posts, postId, i)
    ensures var likes := Toggled(posts[i].likes, userId);
            ToggleLike(posts, postId, userId) == Step(Ok(|likes|), posts[i := posts[i].(likes := likes)])
  {
  }

  /** Two toggles in a row restore the like count and who likes the post, and change no other post;
      when the user had not liked it, they restore the collection exactly. */
  lemma ToggleTwice(posts: seq<Post>, postId: string, userId: string, i: int)
    requires LikesDistinct(posts)
    requires FirstWithId(posts, postId, i)
    ensures var once := ToggleLike(posts, postId, userId).records;
            var twice := ToggleLike(once, postId, userId);
            && twice.result == Ok(|posts[i].likes|)
            && (forall x :: x in twice.records[i].likes <==> x in posts[i].likes)
            && (forall j :: 0 <= j < |posts| && j != i ==> twice.records[j] == posts[j])
            && (userId !in posts[i].likes ==> twice.records == posts)
  {
    var likes := posts[i].likes;
    var once := posts[i := posts[i].(likes := Toggled(likes, userId))];
    ToggleAt(posts, postId, userId, i);
    assert FirstWithId(once, postId, i);
    ToggleAt(once, postId, userId, i);
    var again := Toggled(Toggled(likes, userId), userId);
    assert ToggleLike(once, postId, userId).records == posts[i := posts[i].(likes := again)];
    ToggledTwice(likes, userId);
    if userId !in likes {
      assert posts[i].(likes := again) == posts[i];
    }
  }
}
