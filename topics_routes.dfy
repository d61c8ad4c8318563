/**
 * server/routes/topics.ts: topics of courses. Every route needs only a verified token; no
 * route checks the caller's role.
 */
module TopicsRoutes {
  import opened Wrappers
  import opened Tables
  import opened Db
  import opened Http
  import opened Ordering
  import Seqs
  import Js
  import Pg

  /** `ORDER BY course_id, order_index ASC`; a NULL order_index sorts last within its course. */
  function CourseOrderKey(t: Row<Topic>): Key {
    Pair(t.cols.courseId, t.cols.orderIndex)
  }

  /** The `?course_id=` query parameter: absent or empty means no filter; a present one is
      bound as text to the integer column, and the query fails unless PostgreSQL reads it as a
      32-bit integer. */
  function CourseFilter(courseId: Option<string>): (r: Result<Option<int>>)
    ensures !Js.Present(courseId) ==> r == Ok(None)
    ensures Js.Present(courseId) ==>
      (r.Ok? <==> Pg.ParseInt4(courseId.value).Some?)
      && (r.Ok? ==> r.value == Pg.ParseInt4(courseId.value))
    ensures r.Ok? && r.value.Some? ==> Pg.Int4Min <= r.value.value <= Pg.Int4Max
  {
    if !Js.Present(courseId) then Ok(None)
    else match Pg.ParseInt4(courseId.value)
      case None => Err("Error al obtener temas")
      case Some(n) => Ok(Some(n))
  }

  /** A `course_id` of only white space, such as `?course_id=%20`, is not a number to the
      database: the listing fails with 500. */
  lemma BlankCourseFails(db: Store, courseId: string)
    requires courseId != "" && forall i :: 0 <= i < |courseId| ==> Pg.IsSpace(courseId[i])
    ensures List(db, Some(courseId)) == Fail(InternalError, "Error al obtener temas")
  {
    Pg.BlankRejected(courseId);
  }

  predicate InCourse(t: Row<Topic>, filter: Option<int>) {
    filter.None? || t.cols.courseId == filter.value
  }

  /** `WHERE course_id = $1` when a course is given, then `ORDER BY course_id, order_index`. */
  function Select(topics: seq<Row<Topic>>, filter: Option<int>): (r: seq<Row<Topic>>)
    ensures SortedBy(r, CourseOrderKey, Asc)
    ensures multiset(r) == multiset(Seqs.Filter(topics, (t: Row<Topic>) => InCourse(t, filter)))
    ensures filter.None? ==> multiset(r) == multiset(topics)
    ensures filter.Some? ==>
      && (forall j :: 0 <= j < |r| ==> r[j] in topics && r[j].cols.courseId == filter.value)
      && (forall i :: 0 <= i < |topics| && topics[i].cols.courseId == filter.value ==> topics[i] in r)
  {
    var selected := Seqs.Filter(topics, (t: Row<Topic>) => InCourse(t, filter));
    assert filter.None? ==> selected == topics by {
      if filter.None? {
        Seqs.FilterAll(topics, (t: Row<Topic>) => InCourse(t, filter));
      }
    }
    var sorted := SortBy(selected, CourseOrderKey, Asc);
    SameElements(selected, sorted);
    sorted
  }

  /** GET /: the topics of the course given, or all topics, by course and then order_index. */
  function List(db: Store, courseId: Option<string>): (r: Reply<seq<Row<Topic>>>)
    reads db
    ensures CourseFilter(courseId).Err? ==> r == Fail(InternalError, "Error al obtener temas")
    ensures CourseFilter(courseId).Ok? ==> r.status == Success && r.body.Json?
    ensures r.body.Json? ==> SortedBy(r.body.value, CourseOrderKey, Asc)
    ensures r.body.Json? ==>
      multiset(r.body.value) == multiset(Seqs.Filter(db.topics, (t: Row<Topic>) => InCourse(t, CourseFilter(courseId).value)))
    ensures r.body.Json? && !Js.Present(courseId) ==> multiset(r.body.value) == multiset(db.topics)
    ensures r.body.Json? && Js.Present(courseId) ==>
      && (forall j :: 0 <= j < |r.body.value| ==>
            r.body.value[j] in db.topics && Some(r.body.value[j].cols.courseId) == CourseFilter(courseId).value)
      && (forall i :: 0 <= i < |db.topics| && Some(db.topics[i].cols.courseId) == CourseFilter(courseId).value ==>
            db.topics[i] in r.body.value)
  {
    var filter := CourseFilter(courseId);
    if filter.Err? then Fail(InternalError, "Error al obtener temas")
    else Reply(Success, Json(Select(db.topics, filter.value)))
  }

  /** `order_index || 0`: a falsy order_index is stored as 0. */
  function DefaultOrder(orderIndex: Option<int>): (r: int)
    ensures orderIndex.None? || orderIndex.value == 0 ==> r == 0
    ensures orderIndex.Some? && orderIndex.value != 0 ==> r == orderIndex.value
  {
    if orderIndex.None? || orderIndex.value == 0 then 0 else orderIndex.value
  }

  /** POST /: adds one topic, any caller; answers 201 with it. */
  method Create(db: Store, courseId: int, title: Option<string>, description: Option<string>, orderIndex: Option<int>)
    returns (reply: Reply<Row<Topic>>)
    requires db.Valid()
    modifies db`topics, db`nextTopicId
    ensures db.Valid()
    ensures var row := Row(old(db.nextTopicId), Topic(courseId, title, description, Some(DefaultOrder(orderIndex))));
      && db.topics == old(db.topics) + [row] && db.nextTopicId == old(db.nextTopicId) + 1
      && reply == Reply(Created, Json(row))
  {
    var row := Row(db.nextTopicId, Topic(courseId, title, description, Some(DefaultOrder(orderIndex))));
    db.topics := Tables.Insert(db.topics, db.nextTopicId, row.cols);
    db.nextTopicId := db.nextTopicId + 1;
    reply := Reply(Created, Json(row));
  }

  /** `SET title = $1, description = $2, order_index = $3`: an absent field is stored as NULL;
      the course stays. */
  function Rewrite(t: Topic, title: Option<string>, description: Option<string>, orderIndex: Option<int>): Topic {
    Topic(t.courseId, title, description, orderIndex)
  }

  /** PUT /:id, any caller: rewrites the topic's title, description and order_index, never its
      course. With no such topic the answer is 200 with an empty body, and nothing changes. */
  method Update(db: Store, id: int, title: Option<string>, description: Option<string>, orderIndex: Option<int>)
    returns (reply: Reply<Option<Row<Topic>>>)
    requires db.Valid()
    modifies db`topics
    ensures db.Valid()
    ensures reply.status == Success && reply.body.Json?
    ensures FindId(old(db.topics), id).None? ==> reply.body.value.None? && db.topics == old(db.topics)
    ensures FindId(old(db.topics), id).Some? ==>
      var before := FindId(old(db.topics), id).value;
      var updated := Row(id, Topic(before.cols.courseId, title, description, orderIndex));
      && |db.topics| == |old(db.topics)|
      && (forall i :: 0 <= i < |db.topics| && old(db.topics)[i].id != id ==> db.topics[i] == old(db.topics)[i])
      && (forall i :: 0 <= i < |db.topics| && old(db.topics)[i].id == id ==> db.topics[i] == updated)
      && reply.body.value == Some(updated)
  {
    var found := FindId(db.topics, id);
    if found.None? {
      return Reply(Success, Json(None));
    }
    forall i | 0 <= i < |db.topics| && db.topics[i].id == id ensures db.topics[i] == found.value {
      FindIdUnique(db.topics, db.nextTopicId, id, i);
    }
    db.topics := SetId(db.topics, id, (t: Topic) => Rewrite(t, title, description, orderIndex));
    reply := Reply(Success, Json(Some(Row(id, Rewrite(found.value.cols, title, description, orderIndex)))));
  }

  /** DELETE /:id, any caller: removes the topic if there is one and reports success either way. */
  method Delete(db: Store, id: int) returns (reply: Reply<Row<Topic>>)
    requires db.Valid()
    modifies db`topics
    ensures db.Valid()
    ensures reply == Reply(Success, Message("Tema eliminado correctamente"))
    ensures db.topics == DeleteId(old(db.topics), id)
  {
    DeleteIdKeyed(db.topics, db.nextTopicId, id);
    db.topics := DeleteId(db.topics, id);
    reply := Reply(Success, Message("Tema eliminado correctamente"));
  }
}
