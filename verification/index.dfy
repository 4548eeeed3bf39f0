/**
 * The three SQLite tables of the comic index as sequences of rows in table order, and
 * the statements the bot runs on them: the source upsert, the latest-date and
 * today's-file lookups, the daily-post subscription toggle, the daily post selection and
 * the random post.
 */
module Index {
  import opened Wrappers
  import opened Strings
  import opened Seqs
  import Helper
  import Dates

  /** A row of `sources (name TEXT UNIQUE, url TEXT)`. */
  datatype Source = Source(name: string, url: string)

  /**
   * A row of `images (name TEXT, date DATE, filepath TEXT NOT NULL, file_id TEXT)`.
   * The table has no uniqueness constraint.
   */
  datatype Image = Image(name: string, date: string, filepath: string, fileId: Option<string>)

  /**
   * A row of `daily_posts (chat_id INTEGER, name TEXT, UNIQUE(chat_id, name))`; the
   * UNIQUE constraint is `Distinct` of the table.
   */
  datatype Subscription = Subscription(chatId: int, name: string)

  datatype Db = Db(sources: seq<Source>, images: seq<Image>, dailyPosts: seq<Subscription>)

  // ---------------------------------------------------------------------------------
  // sources
  // ---------------------------------------------------------------------------------

  /** The number of source rows named `name`. */
  function CountNamed(sources: seq<Source>, name: string): nat
    decreases |sources|
  {
    if sources == [] then 0
    else (if sources[0].name == name then 1 else 0) + CountNamed(sources[1..], name)
  }

  lemma {:induction false} CountNamedAppend(a: seq<Source>, b: seq<Source>, name: string)
    ensures CountNamed(a + b, name) == CountNamed(a, name) + CountNamed(b, name)
    decreases |a|
  {
    if a == [] {
      assert a + b == b;
    } else {
      assert (a + b)[1..] == a[1..] + b;
      CountNamedAppend(a[1..], b, name);
    }
  }

  lemma {:induction false} CountNamedPositive(sources: seq<Source>, s: Source)
    requires s in sources
    ensures CountNamed(sources, s.name) >= 1
    decreases |sources|
  {
    if sources[0] != s {
      CountNamedPositive(sources[1..], s);
    }
  }

  /** The UNIQUE constraint on `sources.name`. */
  predicate UniqueNames(sources: seq<Source>) {
    forall s :: s in sources ==> CountNamed(sources, s.name) == 1
  }

  /**
   * `SELECT url FROM sources WHERE name = ?` read through `database_query_single`:
   * the url of the first row with that name, `None` when there is none.
   */
  function SourceUrl(sources: seq<Source>, name: string): (r: Option<string>)
    ensures r.None? <==> CountNamed(sources, name) == 0
    ensures r.Some? ==> Source(name, r.value) in sources
    decreases |sources|
  {
    if sources == [] then None
    else if sources[0].name == name then Some(sources[0].url)
    else SourceUrl(sources[1..], name)
  }

  lemma {:induction false} SourceUrlAppend(a: seq<Source>, b: seq<Source>, name: string)
    ensures SourceUrl(a + b, name) == if SourceUrl(a, name).Some? then SourceUrl(a, name) else SourceUrl(b, name)
    decreases |a|
  {
    if a == [] {
      assert a + b == b;
    } else {
      assert (a + b)[1..] == a[1..] + b;
      SourceUrlAppend(a[1..], b, name);
    }
  }

  /** Under the UNIQUE constraint a name has one url: the one of its only row. */
  lemma {:induction false} SourceUrlUnique(sources: seq<Source>, s: Source)
    requires s in sources && CountNamed(sources, s.name) == 1
    ensures SourceUrl(sources, s.name) == Some(s.url)
    decreases |sources|
  {
    if sources[0] != s {
      if sources[0].name == s.name {
        CountNamedPositive(sources[1..], s);
      } else {
        SourceUrlUnique(sources[1..], s);
      }
    }
  }

  /** The rows the REPLACE conflict resolution keeps: all but those named `name`. */
  function WithoutName(sources: seq<Source>, name: string): (r: seq<Source>)
    ensures forall s :: s in r <==> s in sources && s.name != name
    ensures CountNamed(r, name) == 0
    ensures forall n :: n != name ==> CountNamed(r, n) == CountNamed(sources, n)
    ensures forall n :: n != name ==> SourceUrl(r, n) == SourceUrl(sources, n)
    decreases |sources|
  {
    if sources == [] then []
    else
      var rest := WithoutName(sources[1..], name);
      if sources[0].name == name then rest
      else
        assert ([sources[0]] + rest)[1..] == rest;
        [sources[0]] + rest
  }

  /**
   * `INSERT OR REPLACE INTO sources (name, url) values (?, ?)`: the row holding the name,
   * if any, is deleted and the new row is appended.
   */
  function UpsertSource(sources: seq<Source>, name: string, url: string): (r: seq<Source>)
    ensures CountNamed(r, name) == 1
    ensures SourceUrl(r, name) == Some(url)
    ensures forall n :: n != name ==> CountNamed(r, n) == CountNamed(sources, n)
    ensures forall n :: n != name ==> SourceUrl(r, n) == SourceUrl(sources, n)
    ensures forall s :: s in r <==> s == Source(name, url) || (s in sources && s.name != name)
    ensures UniqueNames(sources) ==> UniqueNames(r)
  {
    var kept := WithoutName(sources, name);
    var r := kept + [Source(name, url)];
    CountNamedAppend(kept, [Source(name, url)], name);
    assert CountNamed([Source(name, url)], name) == 1 by {
      assert [Source(name, url)][1..] == [];
    }
    forall n | n != name
      ensures CountNamed(r, n) == CountNamed(sources, n) && SourceUrl(r, n) == SourceUrl(sources, n)
    {
      CountNamedAppend(kept, [Source(name, url)], n);
      assert CountNamed([Source(name, url)], n) == 0 by {
        assert [Source(name, url)][1..] == [];
      }
      SourceUrlAppend(kept, [Source(name, url)], n);
    }
    SourceUrlAppend(kept, [Source(name, url)], name);
    r
  }

  // ---------------------------------------------------------------------------------
  // images
  // ---------------------------------------------------------------------------------

  lemma RaiseBound(images: seq<Image>, name: string, m: string, m': string)
    requires forall img :: img in images && img.name == name ==> LexLe(img.date, m)
    requires LexLess(m, m')
    ensures forall img :: img in images && img.name == name ==> LexLe(img.date, m')
  {
    forall img | img in images && img.name == name
      ensures LexLe(img.date, m')
    {
      if img.date != m {
        LexTransitive(img.date, m, m');
      }
    }
  }

  /**
   * The first row of `SELECT date FROM images WHERE name = ? ORDER BY date DESC`: the
   * greatest stored date string of the comic in SQLite's text order, `None` when the
   * comic has no rows.
   */
  function LatestStored(images: seq<Image>, name: string): (r: Option<string>)
    ensures r.None? <==> forall img :: img in images ==> img.name != name
    ensures r.Some? ==> exists img :: img in images && img.name == name && img.date == r.value
    ensures r.Some? ==> forall img :: img in images && img.name == name ==> LexLe(img.date, r.value)
    decreases |images|
  {
    if images == [] then None
    else
      var rest := LatestStored(images[1..], name);
      assert forall img :: img in images <==> img == images[0] || img in images[1..];
      if images[0].name != name then rest
      else match rest
        case None => Some(images[0].date)
        case Some(m) =>
          LexTotal(m, images[0].date);
          if LexLess(m, images[0].date) then
            RaiseBound(images[1..], name, m, images[0].date);
            Some(images[0].date)
          else Some(m)
  }

  /** The greatest stored date is determined by its two defining properties. */
  lemma LatestStoredIs(images: seq<Image>, name: string, d: string)
    requires exists img :: img in images && img.name == name && img.date == d
    requires forall img :: img in images && img.name == name ==> LexLe(img.date, d)
    ensures LatestStored(images, name) == Some(d)
  {
    var r := LatestStored(images, name);
    var img :| img in images && img.name == name && img.date == r.value;
    assert LexLe(r.value, d);
    assert LexLe(d, r.value);
    if r.value != d {
      LexAsymmetric(r.value, d);
    }
  }

  /** The one-column rows of `SELECT filepath FROM images WHERE name = ? AND date = ?`. */
  function FilepathRows(images: seq<Image>, name: string, day: string): (r: seq<Helper.Row>)
    ensures r == [] <==> forall img :: img in images ==> !(img.name == name && img.date == day)
    ensures r != [] ==> exists img :: img in images && img.name == name && img.date == day &&
                                      r[0] == [Helper.Text(img.filepath)]
    decreases |images|
  {
    if images == [] then []
    else
      var rest := FilepathRows(images[1..], name, day);
      assert forall img :: img in images <==> img == images[0] || img in images[1..];
      if images[0].name == name && images[0].date == day then [[Helper.Text(images[0].filepath)]] + rest
      else rest
  }

  /**
   * `database_query_single` on that select: the filepath of a stored image of the comic
   * dated `day`, `None` when there is none.
   */
  function TodayFile(images: seq<Image>, name: string, day: string): (r: Option<string>)
    ensures r.None? <==> forall img :: img in images ==> !(img.name == name && img.date == day)
    ensures r.Some? ==> exists img :: img in images && img.name == name && img.date == day && img.filepath == r.value
  {
    var rows := FilepathRows(images, name, day);
    match Helper.DatabaseQuerySingle(Some(rows))
    case Success(Scalar(Text(fp))) => Some(fp)
    case _ => None
  }

  // ---------------------------------------------------------------------------------
  // daily_posts
  // ---------------------------------------------------------------------------------

  /** The rows of `SELECT 1 FROM daily_posts WHERE chat_id = ? AND name = ?`. */
  function SelectOne(posts: seq<Subscription>, s: Subscription): (r: seq<Helper.Row>)
    ensures r == [] <==> s !in posts
    ensures forall i :: 0 <= i < |r| ==> r[i] == [Helper.Integer(1)]
    decreases |posts|
  {
    if posts == [] then []
    else
      var rest := SelectOne(posts[1..], s);
      assert s in posts <==> s == posts[0] || s in posts[1..];
      if posts[0] == s then [[Helper.Integer(1)]] + rest else rest
  }

  /** `_is_comic_scheduled`: whether the select returned something other than `None`. */
  function IsScheduled(posts: seq<Subscription>, chatId: int, name: string): (r: bool)
    ensures r <==> Subscription(chatId, name) in posts
  {
    var rows := SelectOne(posts, Subscription(chatId, name));
    !Helper.IsNone(Helper.DatabaseQuerySingle(Some(rows)).value)
  }

  /**
   * The `sqlite3.IntegrityError` a plain INSERT raises on a duplicate pair. The database
   * worker does not catch it, so no result is ever posted back.
   */
  datatype ScheduleError = IntegrityError

  /** `scheduling_enable`: `INSERT INTO daily_posts values (?, ?)`. */
  function Enable(posts: seq<Subscription>, s: Subscription): (r: Result<seq<Subscription>, ScheduleError>)
    ensures r.Failure? <==> s in posts
    ensures r.Success? ==> |r.value| == |posts| + 1 && r.value[..|posts|] == posts && r.value[|posts|] == s
  {
    if s in posts then Failure(IntegrityError) else Success(posts + [s])
  }

  /** `scheduling_disable`: `DELETE FROM daily_posts WHERE chat_id = ? AND name = ?`. */
  function Disable(posts: seq<Subscription>, s: Subscription): (r: seq<Subscription>)
    ensures s !in r
    ensures forall t :: t != s ==> (t in r <==> t in posts)
    ensures s !in posts ==> r == posts
    ensures Distinct(posts) ==> Distinct(r)
    decreases |posts|
  {
    if posts == [] then []
    else
      var rest := Disable(posts[1..], s);
      if posts[0] == s then rest
      else
        assert Distinct(posts) ==> Distinct(posts[1..]) by {
          if Distinct(posts) {
            forall i, j | 0 <= i < j < |posts[1..]| ensures posts[1..][i] != posts[1..][j] {
              assert posts[1..][i] == posts[i + 1] && posts[1..][j] == posts[j + 1];
            }
          }
        }
        assert s !in posts ==> posts == [posts[0]] + posts[1..];
        assert Distinct(posts) ==> Distinct([posts[0]] + rest) by {
          if Distinct(posts) {
            assert posts[0] !in posts[1..];
            var r := [posts[0]] + rest;
            forall i, j | 0 <= i < j < |r| ensures r[i] != r[j] {
              assert r[j] == rest[j - 1] && rest[j - 1] in rest;
              if i > 0 {
                assert r[i] == rest[i - 1];
              }
            }
          }
        }
        [posts[0]] + rest
  }

  /** The table after a toggle, and whether the toggle enabled the pair. */
  datatype Scheduled = Scheduled(posts: seq<Subscription>, enabled: bool)

  /**
   * `schedule`: disable the pair when it is scheduled, enable it otherwise. Enable is only
   * reached for an absent pair, so the toggle never trips the UNIQUE constraint.
   */
  function Schedule(posts: seq<Subscription>, chatId: int, name: string): (r: Result<Scheduled, ScheduleError>)
    ensures r.Success?
    ensures r.value.enabled <==> Subscription(chatId, name) !in posts
    ensures Subscription(chatId, name) in r.value.posts <==> Subscription(chatId, name) !in posts
    ensures forall t :: t != Subscription(chatId, name) ==> (t in r.value.posts <==> t in posts)
    ensures Distinct(posts) ==> Distinct(r.value.posts)
  {
    var s := Subscription(chatId, name);
    if IsScheduled(posts, chatId, name) then Success(Scheduled(Disable(posts, s), false))
    else
      match Enable(posts, s)
      case Failure(e) => Failure(e)
      case Success(p) =>
        assert Distinct(posts) ==> Distinct(p) by {
          if Distinct(posts) {
            forall i, j | 0 <= i < j < |p| ensures p[i] != p[j] {
              if j == |posts| {
                assert p[i] == posts[i];
              } else {
                assert p[i] == posts[i] && p[j] == posts[j];
              }
            }
          }
        }
        Success(Scheduled(p, true))
  }

  /** Toggling the same pair twice gives back the same set of subscriptions. */
  lemma ScheduleTwiceRestores(posts: seq<Subscription>, chatId: int, name: string)
    ensures var once := Schedule(posts, chatId, name).value.posts;
      forall t :: t in Schedule(once, chatId, name).value.posts <==> t in posts
  {
  }

  /** Enabling a pair and then disabling it gives back the very same table. */
  lemma {:induction false} DisableUndoesEnable(posts: seq<Subscription>, s: Subscription)
    requires s !in posts
    ensures Disable(Enable(posts, s).value, s) == posts
    decreases |posts|
  {
    var p := posts + [s];
    if posts == [] {
      assert p == [s];
      assert p[1..] == [];
    } else {
      assert p[0] == posts[0] && p[1..] == posts[1..] + [s];
      DisableUndoesEnable(posts[1..], s);
      assert posts == [posts[0]] + posts[1..];
    }
  }

  // ---------------------------------------------------------------------------------
  // post_comic_of_the_day
  // ---------------------------------------------------------------------------------

  /** One `send_photo(chat_id, <file>, f"{name} of the day")`. */
  datatype Post = Post(chatId: int, name: string, filepath: string)

  /** The post sent for one subscription: none when its comic has no image of `day`. */
  function PostOf(s: Subscription, images: seq<Image>, day: string): (r: seq<Post>)
    ensures |r| <= 1
    ensures r == [] <==> TodayFile(images, s.name, day).None?
    ensures r != [] ==> r[0] == Post(s.chatId, s.name, TodayFile(images, s.name, day).value)
  {
    match TodayFile(images, s.name, day)
    case None => []
    case Some(fp) => [Post(s.chatId, s.name, fp)]
  }

  /** The lists `f` gives for the elements of `xs`, concatenated in order. */
  function ConcatMap<T, U>(f: T -> seq<U>, xs: seq<T>): seq<U>
    decreases |xs|
  {
    if xs == [] then [] else f(xs[0]) + ConcatMap(f, xs[1..])
  }

  lemma {:induction false} ConcatMapAppend<T, U>(f: T -> seq<U>, a: seq<T>, b: seq<T>)
    ensures ConcatMap(f, a + b) == ConcatMap(f, a) + ConcatMap(f, b)
    decreases |a|
  {
    if a == [] {
      assert a + b == b;
    } else {
      assert (a + b)[0] == a[0] && (a + b)[1..] == a[1..] + b;
      ConcatMapAppend(f, a[1..], b);
    }
  }

  lemma {:induction false} ConcatMapAtMostOne<T, U>(f: T -> seq<U>, xs: seq<T>)
    requires forall x :: |f(x)| <= 1
    ensures |ConcatMap(f, xs)| <= |xs|
    decreases |xs|
  {
    if xs != [] {
      ConcatMapAtMostOne(f, xs[1..]);
    }
  }

  /**
   * The posts sent for the subscriptions `subs`, in their order, for the stored date
   * string `day`; a subscription whose comic has no image of that day is skipped.
   */
  function PostsFor(subs: seq<Subscription>, images: seq<Image>, day: string): (r: seq<Post>)
    ensures |r| <= |subs|
  {
    ConcatMapAtMostOne(s => PostOf(s, images, day), subs);
    ConcatMap(s => PostOf(s, images, day), subs)
  }

  /**
   * A post goes out exactly for the subscriptions whose comic has an image of `day`, and
   * it carries that image's file.
   */
  lemma {:induction false} PostsForExact(subs: seq<Subscription>, images: seq<Image>, day: string)
    ensures forall p :: p in PostsFor(subs, images, day) ==>
              Subscription(p.chatId, p.name) in subs && TodayFile(images, p.name, day) == Some(p.filepath)
    ensures forall s :: s in subs && TodayFile(images, s.name, day).Some? ==>
              Post(s.chatId, s.name, TodayFile(images, s.name, day).value) in PostsFor(subs, images, day)
    decreases |subs|
  {
    if subs != [] {
      PostsForExact(subs[1..], images, day);
      assert forall s :: s in subs <==> s == subs[0] || s in subs[1..];
    }
  }

  /** The selection works subscription by subscription, so it keeps their order. */
  lemma PostsForAppend(a: seq<Subscription>, b: seq<Subscription>, images: seq<Image>, day: string)
    ensures PostsFor(a + b, images, day) == PostsFor(a, images, day) + PostsFor(b, images, day)
  {
    ConcatMapAppend(s => PostOf(s, images, day), a, b);
  }

  /**
   * The posts the loop of `post_comic_of_the_day` selects: for each row of daily_posts,
   * the image of its comic stored under today's canonical date string, if there is one.
   */
  function PostsOfTheDay(db: Db, today: Dates.Date): (r: seq<Post>)
    requires Dates.ValidDate(today)
    ensures forall p :: p in r <==>
              Subscription(p.chatId, p.name) in db.dailyPosts &&
              TodayFile(db.images, p.name, Dates.Format(today)) == Some(p.filepath)
  {
    PostsForExact(db.dailyPosts, db.images, Dates.Format(today));
    PostsFor(db.dailyPosts, db.images, Dates.Format(today))
  }

  /** Distinct subscriptions get distinct posts. */
  lemma {:induction false} PostsForDistinct(subs: seq<Subscription>, images: seq<Image>, day: string)
    requires Distinct(subs)
    ensures Distinct(PostsFor(subs, images, day))
    decreases |subs|
  {
    if subs != [] {
      var head, tail := PostOf(subs[0], images, day), PostsFor(subs[1..], images, day);
      assert Distinct(subs[1..]) by {
        assert forall i :: 0 <= i < |subs| - 1 ==> subs[1..][i] == subs[i + 1];
      }
      PostsForDistinct(subs[1..], images, day);
      PostsForExact(subs[1..], images, day);
      assert PostsFor(subs, images, day) == head + tail;
      forall i, j | 0 <= i < j < |head + tail|
        ensures (head + tail)[i] != (head + tail)[j]
      {
        if i < |head| {
          var q := tail[j - |head|];
          assert q in tail;
          assert Subscription(q.chatId, q.name) in subs[1..];
          assert subs[0] !in subs[1..];
        }
      }
    }
  }

  /** How the loop ended: the posts sent, and the one whose `open` or `send_photo` raised. */
  datatype Sending = Sending(sent: seq<Post>, failed: Option<Post>)

  /**
   * Sending `posts` in order, where `delivers(p)` says whether opening p's file and
   * sending it succeed. The first raise ends the loop: the posts before it are sent and
   * none after it.
   */
  function SendAll(posts: seq<Post>, delivers: Post -> bool): (r: Sending)
    ensures r.sent <= posts
    ensures forall i :: 0 <= i < |r.sent| ==> delivers(r.sent[i])
    ensures r.failed.None? <==> r.sent == posts
    ensures r.failed.Some? ==>
              |r.sent| < |posts| && r.failed.value == posts[|r.sent|] && !delivers(r.failed.value)
    decreases |posts|
  {
    if posts == [] then Sending([], None)
    else if !delivers(posts[0]) then Sending([], Some(posts[0]))
    else
      var rest := SendAll(posts[1..], delivers);
      Sending([posts[0]] + rest.sent, rest.failed)
  }

  /**
   * `post_comic_of_the_day`: the selected posts are sent in daily_posts order until an
   * `open` or `send_photo` raises. Every post goes out exactly when every send succeeds.
   */
  function PostComicOfTheDay(db: Db, today: Dates.Date, delivers: Post -> bool): (r: Sending)
    requires Dates.ValidDate(today)
    ensures r.sent <= PostsOfTheDay(db, today)
    ensures forall p :: p in r.sent ==>
              Subscription(p.chatId, p.name) in db.dailyPosts &&
              TodayFile(db.images, p.name, Dates.Format(today)) == Some(p.filepath)
    ensures r.failed.None? <==> forall p :: p in PostsOfTheDay(db, today) ==> delivers(p)
    ensures r.failed.None? ==> forall p :: p in r.sent <==>
              Subscription(p.chatId, p.name) in db.dailyPosts &&
              TodayFile(db.images, p.name, Dates.Format(today)) == Some(p.filepath)
  {
    var posts := PostsOfTheDay(db, today);
    var r := SendAll(posts, delivers);
    assert forall p :: p in r.sent ==> p in posts by {
      forall p | p in r.sent
        ensures p in posts
      {
        var i :| 0 <= i < |r.sent| && r.sent[i] == p;
        assert posts[i] == p;
      }
    }
    r
  }

  /**
   * Under UNIQUE(chat_id, name), a raise cuts off the rest of the day: no post selected
   * after the failing one is sent.
   */
  lemma NothingAfterFailedSend(db: Db, today: Dates.Date, delivers: Post -> bool)
    requires Dates.ValidDate(today) && Distinct(db.dailyPosts)
    ensures var posts, r := PostsOfTheDay(db, today), PostComicOfTheDay(db, today, delivers);
      r.failed.Some? ==> forall j :: |r.sent| <= j < |posts| ==> posts[j] !in r.sent
  {
    var posts, r := PostsOfTheDay(db, today), PostComicOfTheDay(db, today, delivers);
    PostsForDistinct(db.dailyPosts, db.images, Dates.Format(today));
    if r.failed.Some? {
      forall j | |r.sent| <= j < |posts|
        ensures posts[j] !in r.sent
      {
        forall i | 0 <= i < |r.sent|
          ensures r.sent[i] != posts[j]
        {
          assert r.sent[i] == posts[i];
        }
      }
    }
  }

  // ---------------------------------------------------------------------------------
  // random_post
  // ---------------------------------------------------------------------------------

  /** The stored images of one comic, in table order. */
  function ComicRows(images: seq<Image>, name: string): (r: seq<Image>)
    ensures forall img :: img in r <==> img in images && img.name == name
    ensures |r| <= |images|
    decreases |images|
  {
    if images == [] then []
    else
      var rest := ComicRows(images[1..], name);
      assert forall img :: img in images <==> img == images[0] || img in images[1..];
      if images[0].name == name then [images[0]] + rest else rest
  }

  /** How the photo is sent: by a cached Telegram file id, or by opening the stored file. */
  datatype Photo = ByFileId(id: string) | ByFile(path: string)

  /** The message text `f"{name} of {date}"` and the photo sent after it. */
  datatype Delivery = Delivery(caption: string, photo: Photo)

  /** Unpacking the `None` returned for a comic without rows raises TypeError. */
  datatype RandomError = NothingStored

  /** The three-column row `SELECT date, filepath, file_id` hands back. */
  function ImageRow(img: Image): Helper.Row {
    [Helper.Text(img.date), Helper.Text(img.filepath),
     if img.fileId.Some? then Helper.Text(img.fileId.value) else Helper.Null]
  }

  /**
   * `random_post`: `pick` is the row `ORDER BY RANDOM() LIMIT 1` chose among the
   * comic's rows. A non-NULL file_id is sent in preference to the stored file.
   */
  function RandomPost(images: seq<Image>, name: string, pick: nat): (r: Result<Delivery, RandomError>)
    requires ComicRows(images, name) == [] || pick < |ComicRows(images, name)|
    ensures r.Failure? <==> forall img :: img in images ==> img.name != name
    ensures r.Success? ==> exists img :: (img in images && img.name == name &&
              r.value.caption == name + " of " + img.date &&
              r.value.photo == (if img.fileId.Some? then ByFileId(img.fileId.value) else ByFile(img.filepath)))
  {
    var rows := ComicRows(images, name);
    var reply := if rows == [] then [] else [ImageRow(rows[pick])];
    match Helper.DatabaseQuerySingle(Some(reply))
    case Success(Tuple(row)) =>
      // `date, filepath, file_id = row`: the row is the picked image's three columns
      assert row == ImageRow(rows[pick]);
      var date, filepath, fileId := row[0].s, row[1].s, row[2];
      var photo := if fileId != Helper.Null then ByFileId(fileId.s) else ByFile(filepath);
      Success(Delivery(name + " of " + date, photo))
    case _ => Failure(NothingStored)
  }

  /** Every stored image of the comic is a possible random post. */
  lemma EveryRowCanBePosted(images: seq<Image>, name: string, img: Image)
    requires img in images && img.name == name
    ensures exists pick: nat :: pick < |ComicRows(images, name)| && ComicRows(images, name)[pick] == img
    ensures forall pick: nat :: pick < |ComicRows(images, name)| && ComicRows(images, name)[pick] == img ==>
              RandomPost(images, name, pick) == Success(Delivery(name + " of " + img.date,
                if img.fileId.Some? then ByFileId(img.fileId.value) else ByFile(img.filepath)))
  {
    var rows := ComicRows(images, name);
    var pick :| 0 <= pick < |rows| && rows[pick] == img;
  }
}
