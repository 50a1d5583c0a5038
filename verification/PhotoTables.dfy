/** The photo database as values: unique paths and names, link rows that cascade. */
module PhotoTables {
  import opened Wrappers

  type Embedding = seq<real>

  /** The known persons one face is close to. */
  type Matcher = (map<int, Embedding>, Embedding) -> seq<int>

  /** A link row: the photo and the object or person it is linked to. */
  datatype Link = Link(photo: int, other: int)

  /** All tables. Row ids come from counters that never go back. */
  datatype Tables = Tables(
    changed: set<string>,
    photos: map<int, string>, nextPhoto: int,
    objects: map<int, string>, nextObject: int,
    persons: map<int, Embedding>, nextPerson: int,
    photoObjects: map<int, Link>, nextPhotoObject: int,
    photoPersons: map<int, Link>, nextPhotoPerson: int)

  const EMPTY := Tables({}, map[], 1, map[], 1, map[], 1, map[], 1, map[], 1)

  // ---------------------------------------------------------------------------
  // Integrity
  // ---------------------------------------------------------------------------

  ghost predicate UniqueValues(m: map<int, string>) {
    forall i, j :: i in m && j in m && m[i] == m[j] ==> i == j
  }

  ghost predicate Below<V>(m: map<int, V>, next: int) {
    forall i :: i in m ==> 0 < i < next
  }

  /** Every link row points at an existing photo and an existing object or person. */
  ghost predicate NoDangling<V>(links: map<int, Link>, photos: map<int, string>, others: map<int, V>) {
    forall r :: r in links ==> links[r].photo in photos && links[r].other in others
  }

  ghost predicate Sound(t: Tables) {
    && UniqueValues(t.photos) && UniqueValues(t.objects)
    && NoDangling(t.photoObjects, t.photos, t.objects)
    && NoDangling(t.photoPersons, t.photos, t.persons)
    && Below(t.photos, t.nextPhoto) && Below(t.objects, t.nextObject) && Below(t.persons, t.nextPerson)
    && Below(t.photoObjects, t.nextPhotoObject) && Below(t.photoPersons, t.nextPhotoPerson)
    && t.nextPhoto > 0 && t.nextObject > 0 && t.nextPerson > 0 && t.nextPhotoObject > 0 && t.nextPhotoPerson > 0
  }

  function Paths(t: Tables): set<string> {
    set i | i in t.photos :: t.photos[i]
  }

  // ---------------------------------------------------------------------------
  // Statements
  // ---------------------------------------------------------------------------

  /** Queues a path; a path already queued is ignored. */
  function ChangedAdd(t: Tables, path: string): Tables {
    t.(changed := t.changed + {path})
  }

  function ChangedRemove(t: Tables, path: string): Tables {
    t.(changed := t.changed - {path})
  }

  /** The link rows left when the photos in `gone` disappear. */
  function Cascade(links: map<int, Link>, gone: set<int>): map<int, Link> {
    map r | r in links && links[r].photo !in gone :: links[r]
  }

  function IdsOf(m: map<int, string>, value: string): set<int> {
    set i | i in m && m[i] == value
  }

  /** Deletes the photo rows with this path and, by cascade, their links. */
  function PhotoRemove(t: Tables, path: string): Tables {
    var gone := IdsOf(t.photos, path);
    t.(photos := t.photos - gone,
       photoObjects := Cascade(t.photoObjects, gone), photoPersons := Cascade(t.photoPersons, gone))
  }

  /** Deletes any row with this path, inserts a new one and returns its id. */
  function PhotoAdd(t: Tables, path: string): (Tables, int) {
    var u := PhotoRemove(t, path);
    (u.(photos := u.photos[u.nextPhoto := path], nextPhoto := u.nextPhoto + 1), u.nextPhoto)
  }

  /** Renames a photo; refused when another photo already has the new path. */
  function PhotoMove(t: Tables, from: string, to: string): Result<Tables, string> {
    if from != to && IdsOf(t.photos, from) != {} && IdsOf(t.photos, to) != {} then Failure("UNIQUE constraint failed")
    else Success(t.(photos := map i | i in t.photos :: if t.photos[i] == from then to else t.photos[i]))
  }

  /** The row with this value, inserted if there is none. */
  function ObjectAdd(t: Tables, name: string): (Tables, int) {
    var ids := IdsOf(t.objects, name);
    if ids == {} then (t.(objects := t.objects[t.nextObject := name], nextObject := t.nextObject + 1), t.nextObject)
    else (t, Least(ids))
  }

  predicate IsLeast(ids: set<int>, i: int) {
    i in ids && forall j :: j in ids ==> i <= j
  }

  /** The least element of a set. */
  function Least(ids: set<int>): (i: int)
    requires ids != {}
    ensures i in ids
  {
    LeastExists(ids);
    var i :| IsLeast(ids, i);
    i
  }

  lemma {:induction false} LeastExists(ids: set<int>)
    requires ids != {}
    ensures exists i :: IsLeast(ids, i)
  {
    assert (forall x :: x !in ids) ==> ids == {};
    var x :| x in ids;
    var rest := ids - {x};
    if rest == {} {
      assert forall j :: j in ids ==> j == x || j in rest;
      assert IsLeast(ids, x);
    } else {
      LeastExists(rest);
      var y :| IsLeast(rest, y);
      assert forall j :: j in ids ==> j == x || j in rest;
      assert IsLeast(ids, if x < y then x else y);
    }
  }

  function PersonAdd(t: Tables, v: Embedding): (Tables, int) {
    (t.(persons := t.persons[t.nextPerson := v], nextPerson := t.nextPerson + 1), t.nextPerson)
  }

  /** Links a photo and an object; a missing end is refused by the foreign keys. */
  function PhotoObjectAdd(t: Tables, photo: int, objectId: int): Tables {
    if photo in t.photos && objectId in t.objects then
      t.(photoObjects := t.photoObjects[t.nextPhotoObject := Link(photo, objectId)],
         nextPhotoObject := t.nextPhotoObject + 1)
    else t
  }

  function PhotoPersonAdd(t: Tables, photo: int, personId: int): Tables {
    if photo in t.photos && personId in t.persons then
      t.(photoPersons := t.photoPersons[t.nextPhotoPerson := Link(photo, personId)],
         nextPhotoPerson := t.nextPhotoPerson + 1)
    else t
  }

  /** Empties every table; the counters stay. */
  function RemoveAll(t: Tables): Tables {
    t.(changed := {}, photos := map[], objects := map[], persons := map[], photoObjects := map[], photoPersons := map[])
  }

  // ---------------------------------------------------------------------------
  // Every statement keeps integrity
  // ---------------------------------------------------------------------------

  lemma PhotoRemoveIsSound(t: Tables, path: string)
    requires Sound(t)
    ensures Sound(PhotoRemove(t, path)) && path !in Paths(PhotoRemove(t, path))
    ensures forall p :: p != path ==> (p in Paths(PhotoRemove(t, path)) <==> p in Paths(t))
  {
    var u := PhotoRemove(t, path);
    forall p | p != path ensures p in Paths(u) <==> p in Paths(t) {
      if p in Paths(t) {
        var i :| i in t.photos && t.photos[i] == p;
        assert u.photos[i] == p;
      }
    }
  }

  lemma PhotoAddIsSound(t: Tables, path: string)
    requires Sound(t)
    ensures var (u, id) := PhotoAdd(t, path); Sound(u) && id in u.photos && u.photos[id] == path && id !in t.photos
    ensures Paths(PhotoAdd(t, path).0) == Paths(t) + {path}
  {
    PhotoRemoveIsSound(t, path);
    var (u, id) := PhotoAdd(t, path);
    var v := PhotoRemove(t, path);
    forall p ensures p in Paths(u) <==> p in Paths(t) + {path} {
      if p in Paths(v) {
        var i :| i in v.photos && v.photos[i] == p;
        assert u.photos[i] == p;
      }
      assert u.photos[id] == path;
    }
  }

  /** Renaming touches no link and no other path; it fails exactly when both paths exist
      and differ, and changes the set of paths by exactly the rename. */
  lemma PhotoMoveIsSound(t: Tables, from: string, to: string)
    requires Sound(t)
    ensures PhotoMove(t, from, to).Failure? <==> from != to && from in Paths(t) && to in Paths(t)
    ensures PhotoMove(t, from, to).Success? ==>
              var u := PhotoMove(t, from, to).value;
              && Sound(u) && u == t.(photos := u.photos) && u.photos.Keys == t.photos.Keys
              && Paths(u) == if from in Paths(t) then Paths(t) - {from} + {to} else Paths(t)
  {
    PathHasRow(t, from);
    PathHasRow(t, to);
    if PhotoMove(t, from, to).Success? {
      var u := PhotoMove(t, from, to).value;
      MovedStaysUnique(t, from, to);
      forall p ensures p in Paths(u) <==> p in (if from in Paths(t) then Paths(t) - {from} + {to} else Paths(t)) {
        if p in Paths(t) && p != from {
          var i :| i in t.photos && t.photos[i] == p;
          assert u.photos[i] == p;
        }
        if from in Paths(t) {
          var i :| i in t.photos && t.photos[i] == from;
          assert u.photos[i] == to;
        }
      }
    }
  }

  lemma PathHasRow(t: Tables, path: string)
    ensures path in Paths(t) <==> IdsOf(t.photos, path) != {}
  {
    var ids := IdsOf(t.photos, path);
    assert (forall x :: x !in ids) ==> ids == {};
    assert forall i :: i in t.photos && t.photos[i] == path ==> i in ids;
  }

  lemma MovedStaysUnique(t: Tables, from: string, to: string)
    requires Sound(t) && PhotoMove(t, from, to).Success?
    ensures UniqueValues(PhotoMove(t, from, to).value.photos)
  {
    var u := PhotoMove(t, from, to).value;
    assert forall i :: i in t.photos ==> i in IdsOf(t.photos, t.photos[i]);
    assert from != to ==> IdsOf(t.photos, from) == {} || IdsOf(t.photos, to) == {};
  }

  lemma ObjectAddIsSound(t: Tables, name: string)
    requires Sound(t)
    ensures var (u, id) := ObjectAdd(t, name); Sound(u) && id in u.objects && u.objects[id] == name
    ensures forall i :: i in t.objects ==>
              i in ObjectAdd(t, name).0.objects && ObjectAdd(t, name).0.objects[i] == t.objects[i]
  {
    if IdsOf(t.objects, name) == {} {
      assert forall i :: i in t.objects ==> i in IdsOf(t.objects, t.objects[i]);
    }
  }

  lemma RestIsSound(t: Tables, v: Embedding, photo: int, objectId: int, personId: int, path: string)
    requires Sound(t)
    ensures Sound(PersonAdd(t, v).0) && Sound(PhotoObjectAdd(t, photo, objectId)) &&
            Sound(PhotoPersonAdd(t, photo, personId))
    ensures Sound(ChangedAdd(t, path)) && Sound(ChangedRemove(t, path)) && Sound(RemoveAll(t))
  {
  }

  // ---------------------------------------------------------------------------
  // Listings
  // ---------------------------------------------------------------------------

  ghost function RowsWith(m: map<int, int>, k: int): set<int> {
    set r | r in m && m[r] == k
  }

  /** How many rows of a join hold a value. */
  ghost function Times(m: map<int, int>, k: int): nat {
    |RowsWith(m, k)|
  }

  /** A new row adds its value once. */
  lemma TimesInsert(m: map<int, int>, r: int, x: int, k: int)
    requires r !in m
    ensures Times(m[r := x], k) == Times(m, k) + if x == k then 1 else 0
  {
    assert RowsWith(m[r := x], k) == RowsWith(m, k) + if x == k then {r} else {};
  }

  /** The rows a join of photos, links and others selects for one photo path. */
  ghost function JoinByPath<V>(links: map<int, Link>, photos: map<int, string>, others: map<int, V>, path: string)
      : map<int, int> {
    map r | r in links && links[r].photo in photos && links[r].other in others && photos[links[r].photo] == path
        :: links[r].other
  }

  /** The rows a join selects for one object or person. */
  ghost function JoinByOther<V>(links: map<int, Link>, photos: map<int, string>, others: map<int, V>, q: int)
      : map<int, int> {
    map r | r in links && links[r].photo in photos && links[r].other in others && links[r].other == q :: links[r].photo
  }

  /** How often the listing of a photo's persons shows person `q`. */
  ghost function ListPersonByPhoto(t: Tables, path: string, q: int): nat {
    Times(JoinByPath(t.photoPersons, t.photos, t.persons, path), q)
  }

  /** How often the listing of a person's photos shows photo `i`. */
  ghost function ListPhotoByPerson(t: Tables, q: int, i: int): nat {
    Times(JoinByOther(t.photoPersons, t.photos, t.persons, q), i)
  }

  ghost function ListClassByPhoto(t: Tables, path: string, o: int): nat {
    Times(JoinByPath(t.photoObjects, t.photos, t.objects, path), o)
  }

  ghost function ListPhotoByClass(t: Tables, o: int, i: int): nat {
    Times(JoinByOther(t.photoObjects, t.photos, t.objects, o), i)
  }

  /** The two joins of a link table are converse, row for row. */
  lemma JoinsAreConverse<V>(links: map<int, Link>, photos: map<int, string>, others: map<int, V>, i: int, q: int)
    requires UniqueValues(photos) && i in photos
    ensures Times(JoinByOther(links, photos, others, q), i) == Times(JoinByPath(links, photos, others, photos[i]), q)
  {
    assert RowsWith(JoinByOther(links, photos, others, q), i)
        == RowsWith(JoinByPath(links, photos, others, photos[i]), q);
  }

  /** "Photos of a person" and "persons of a photo" agree with multiplicities, and so do
      the listings by class. */
  lemma ListingsAreConverse(t: Tables, i: int, q: int)
    requires Sound(t) && i in t.photos
    ensures ListPhotoByPerson(t, q, i) == ListPersonByPhoto(t, t.photos[i], q)
    ensures ListPhotoByClass(t, q, i) == ListClassByPhoto(t, t.photos[i], q)
  {
    JoinsAreConverse(t.photoPersons, t.photos, t.persons, i, q);
    JoinsAreConverse(t.photoObjects, t.photos, t.objects, i, q);
  }

  // ---------------------------------------------------------------------------
  // Storing a scanned photo
  // ---------------------------------------------------------------------------

  /** Adds every label and links the photo to it. */
  function StoreLabels(t: Tables, photo: int, labels: seq<string>): Tables {
    if labels == [] then t
    else
      var (u, id) := ObjectAdd(StoreLabels(t, photo, labels[..|labels| - 1]), labels[|labels| - 1]);
      PhotoObjectAdd(u, photo, id)
  }

  /** Links the photo to every listed person. */
  function LinkPersons(t: Tables, photo: int, ids: seq<int>): Tables {
    if ids == [] then t
    else PhotoPersonAdd(LinkPersons(t, photo, ids[..|ids| - 1]), photo, ids[|ids| - 1])
  }

  /** Adds a person for every face and links the photo to it. */
  function AddPersons(t: Tables, photo: int, faces: seq<Embedding>): Tables {
    if faces == [] then t
    else
      var (u, id) := PersonAdd(AddPersons(t, photo, faces[..|faces| - 1]), faces[|faces| - 1]);
      PhotoPersonAdd(u, photo, id)
  }

  /** All persons close to some face, face by face. */
  function KnownPersons(persons: map<int, Embedding>, faces: seq<Embedding>, matches: Matcher): seq<int> {
    if faces == [] then []
    else KnownPersons(persons, faces[..|faces| - 1], matches) + matches(persons, faces[|faces| - 1])
  }

  /** The faces close to no known person. */
  function NewFaces(persons: map<int, Embedding>, faces: seq<Embedding>, matches: Matcher): seq<Embedding> {
    if faces == [] then []
    else NewFaces(persons, faces[..|faces| - 1], matches)
         + if matches(persons, faces[|faces| - 1]) == [] then [faces[|faces| - 1]] else []
  }

  /** Known faces are linked first; only then are the unknown ones added. */
  function StoreFaces(t: Tables, photo: int, faces: seq<Embedding>, matches: Matcher): Tables {
    AddPersons(LinkPersons(t, photo, KnownPersons(t.persons, faces, matches)),
      photo, NewFaces(t.persons, faces, matches))
  }

  /** The locked section that ends one photo's scan. */
  function StorePhoto(t: Tables, path: string, labels: seq<string>, faces: seq<Embedding>, matches: Matcher): Tables {
    var (u, id) := PhotoAdd(ChangedRemove(t, path), path);
    StoreFaces(StoreLabels(u, id, labels), id, faces, matches)
  }

  /** A match names only persons that are in the table. */
  ghost predicate MatchesKnown(matches: Matcher) {
    forall persons, v, k :: 0 <= k < |matches(persons, v)| ==> matches(persons, v)[k] in persons
  }

  /** A new link adds one to the join of its photo's path and nothing to other joins. */
  lemma JoinInsert<V>(links: map<int, Link>, photos: map<int, string>, others: map<int, V>, r: int, photo: int,
                      other: int, path: string, q: int)
    requires r !in links && photo in photos && other in others
    ensures Times(JoinByPath(links[r := Link(photo, other)], photos, others, path), q)
         == Times(JoinByPath(links, photos, others, path), q) + if photos[photo] == path && other == q then 1 else 0
  {
    var before := JoinByPath(links, photos, others, path);
    var after := JoinByPath(links[r := Link(photo, other)], photos, others, path);
    if photos[photo] == path {
      assert after == before[r := other];
      TimesInsert(before, r, other, q);
    } else {
      assert after == before;
    }
  }

  /** Complete links keep their join when objects or persons are added. */
  lemma JoinIgnoresNew<V>(links: map<int, Link>, photos: map<int, string>, others: map<int, V>, others': map<int, V>,
                          path: string)
    requires NoDangling(links, photos, others) && others.Keys <= others'.Keys
    ensures JoinByPath(links, photos, others', path) == JoinByPath(links, photos, others, path)
  {
    assert forall r :: r in links ==> links[r].other in others.Keys;
  }

  ghost predicate Named(t: Tables, labels: seq<string>) {
    forall k :: 0 <= k < |labels| ==> HasName(t, labels[k])
  }

  /** Naming an object changes no listing. */
  lemma ObjectAddLists(t: Tables, l: string, path: string, o: int)
    requires Sound(t)
    ensures ListClassByPhoto(ObjectAdd(t, l).0, path, o) == ListClassByPhoto(t, path, o)
  {
    ObjectAddIsSound(t, l);
    JoinIgnoresNew(t.photoObjects, t.photos, t.objects, ObjectAdd(t, l).0.objects, path);
  }

  lemma PhotoObjectAddLists(t: Tables, photo: int, id: int, path: string, o: int)
    requires Sound(t) && photo in t.photos && id in t.objects
    ensures ListClassByPhoto(PhotoObjectAdd(t, photo, id), path, o)
         == ListClassByPhoto(t, path, o) + if t.photos[photo] == path && id == o then 1 else 0
  {
    JoinInsert(t.photoObjects, t.photos, t.objects, t.nextPhotoObject, photo, id, path, o);
  }

  /** One label: its object exists afterwards and has one more link from the photo. */
  lemma StoreLabel(t: Tables, photo: int, l: string, path: string, o: int)
    requires Sound(t) && photo in t.photos
    ensures var (u, id) := ObjectAdd(t, l);
            var w := PhotoObjectAdd(u, photo, id);
            && Sound(w) && w.photos == t.photos && w.persons == t.persons
            && w.photoPersons == t.photoPersons && w.changed == t.changed
            && id in w.objects && w.objects[id] == l
            && (forall p :: p in t.objects ==> p in w.objects && w.objects[p] == t.objects[p])
            && (forall p :: p in w.objects && p !in t.objects ==> p == id)
            && ListClassByPhoto(w, path, o)
               == ListClassByPhoto(t, path, o) + if t.photos[photo] == path && id == o then 1 else 0
  {
    var (u, id) := ObjectAdd(t, l);
    ObjectAddIsSound(t, l);
    ObjectAddLists(t, l, path, o);
    PhotoObjectAddLists(u, photo, id, path, o);
    RestIsSound(u, [], photo, id, 0, "");
  }

  /** An object that is not in the table is not listed. */
  lemma UnknownNotListed(t: Tables, path: string, o: int)
    requires o !in t.objects
    ensures ListClassByPhoto(t, path, o) == 0
  {
    assert RowsWith(JoinByPath(t.photoObjects, t.photos, t.objects, path), o) == {};
  }

  /** Storing labels changes objects and their links only, and names every label. */
  lemma {:induction false} StoreLabelsKeeps(t: Tables, photo: int, labels: seq<string>)
    requires Sound(t) && photo in t.photos
    ensures var u := StoreLabels(t, photo, labels);
            && Sound(u) && u.photos == t.photos && u.persons == t.persons
            && u.photoPersons == t.photoPersons && u.changed == t.changed
            && u.nextPerson == t.nextPerson && Named(u, labels)
  {
    if labels != [] {
      var front, l := labels[..|labels| - 1], labels[|labels| - 1];
      StoreLabelsKeeps(t, photo, front);
      var u, w := StoreLabels(t, photo, front), StoreLabels(t, photo, labels);
      StoreLabel(u, photo, l, "", 0);
      forall k | 0 <= k < |labels| ensures HasName(w, labels[k]) {
        if k < |front| {
          assert HasName(u, front[k]);
          var o :| o in u.objects && u.objects[o] == front[k];
          assert o in w.objects && w.objects[o] == labels[k];
        }
      }
    }
  }

  /** Storing labels for a photo that lists nothing: each object is listed for it as often
      as its name occurs among the labels. Other photos list what they did. */
  lemma {:induction false} StoreLabelsLists(t: Tables, photo: int, labels: seq<string>, path: string, o: int)
    requires Sound(t) && photo in t.photos
    requires t.photos[photo] == path ==> ListClassByPhoto(t, path, o) == 0
    ensures var u := StoreLabels(t, photo, labels);
            && (t.photos[photo] == path && o in u.objects ==>
                ListClassByPhoto(u, path, o) == multiset(labels)[u.objects[o]])
            && (t.photos[photo] != path ==> ListClassByPhoto(u, path, o) == ListClassByPhoto(t, path, o))
  {
    if labels != [] {
      var front, l := labels[..|labels| - 1], labels[|labels| - 1];
      StoreLabelsKeeps(t, photo, front);
      StoreLabelsLists(t, photo, front, path, o);
      var u := StoreLabels(t, photo, front);
      StoreLabel(u, photo, l, path, o);
      assert labels == front + [l];
      assert multiset(labels) == multiset(front) + multiset{l};
      if t.photos[photo] == path {
        LabelCount(u, front, l, path, o);
      }
    }
  }

  /** The object the last label names is not counted for another label, nor another object for it. */
  lemma LabelCount(u: Tables, front: seq<string>, l: string, path: string, o: int)
    requires Sound(u) && Named(u, front)
    ensures o in u.objects && o != ObjectAdd(u, l).1 ==> u.objects[o] != l
    ensures o !in u.objects && o == ObjectAdd(u, l).1 ==> ListClassByPhoto(u, path, o) == 0 && l !in front
  {
    ObjectAddIsSound(u, l);
    assert forall p :: p in u.objects ==> p in IdsOf(u.objects, u.objects[p]);
    if o !in u.objects && o == ObjectAdd(u, l).1 {
      UnknownNotListed(u, path, o);
      NotNamed(u, front, l);
    }
  }

  ghost predicate HasName(t: Tables, name: string) {
    exists o :: o in t.objects && t.objects[o] == name
  }

  lemma NotNamed(u: Tables, front: seq<string>, l: string)
    requires Named(u, front) && !HasName(u, l)
    ensures l !in front
  {
    forall k | 0 <= k < |front| ensures front[k] != l {
      assert HasName(u, front[k]);
    }
  }

  /** The ids the next `n` persons will get. */
  ghost function NextIds(from: int, n: nat): seq<int> {
    if n == 0 then [] else NextIds(from, n - 1) + [from + n - 1]
  }

  lemma PhotoPersonAddLists(t: Tables, photo: int, id: int, path: string, q: int)
    requires Sound(t) && photo in t.photos && id in t.persons
    ensures ListPersonByPhoto(PhotoPersonAdd(t, photo, id), path, q)
         == ListPersonByPhoto(t, path, q) + if t.photos[photo] == path && id == q then 1 else 0
  {
    JoinInsert(t.photoPersons, t.photos, t.persons, t.nextPhotoPerson, photo, id, path, q);
  }

  /** Only persons and their links may differ. */
  ghost predicate OnlyPersonsDiffer(t: Tables, u: Tables) {
    u == t.(persons := u.persons, nextPerson := u.nextPerson,
        photoPersons := u.photoPersons, nextPhotoPerson := u.nextPhotoPerson)
  }

  lemma {:induction false} LinkPersonsLists(t: Tables, photo: int, ids: seq<int>, path: string, q: int)
    requires Sound(t) && photo in t.photos && forall k :: 0 <= k < |ids| ==> ids[k] in t.persons
    ensures var u := LinkPersons(t, photo, ids);
            && Sound(u) && OnlyPersonsDiffer(t, u) && u.persons == t.persons && u.nextPerson == t.nextPerson
            && ListPersonByPhoto(u, path, q)
               == ListPersonByPhoto(t, path, q) + if t.photos[photo] == path then multiset(ids)[q] else 0
  {
    if ids != [] {
      var front, id := ids[..|ids| - 1], ids[|ids| - 1];
      LinkPersonsLists(t, photo, front, path, q);
      var u := LinkPersons(t, photo, front);
      RestIsSound(u, [], photo, 0, id, "");
      PhotoPersonAddLists(u, photo, id, path, q);
      assert ids == front + [id];
      assert multiset(ids) == multiset(front) + multiset{id};
    }
  }

  lemma AddPersonLists(t: Tables, photo: int, v: Embedding, path: string, q: int)
    requires Sound(t) && photo in t.photos
    ensures var u := PhotoPersonAdd(PersonAdd(t, v).0, photo, PersonAdd(t, v).1);
            && Sound(u) && OnlyPersonsDiffer(t, u) && u.nextPerson == t.nextPerson + 1
            && ListPersonByPhoto(u, path, q)
               == ListPersonByPhoto(t, path, q) + if t.photos[photo] == path && t.nextPerson == q then 1 else 0
  {
    var w := PersonAdd(t, v).0;
    RestIsSound(t, v, 0, 0, 0, "");
    RestIsSound(w, [], photo, 0, t.nextPerson, "");
    JoinIgnoresNew(t.photoPersons, t.photos, t.persons, w.persons, path);
    PhotoPersonAddLists(w, photo, t.nextPerson, path, q);
  }

  lemma {:induction false} AddPersonsLists(t: Tables, photo: int, faces: seq<Embedding>, path: string, q: int)
    requires Sound(t) && photo in t.photos
    ensures var u := AddPersons(t, photo, faces);
            && Sound(u) && OnlyPersonsDiffer(t, u) && u.nextPerson == t.nextPerson + |faces|
            && ListPersonByPhoto(u, path, q)
               == ListPersonByPhoto(t, path, q)
                  + if t.photos[photo] == path then multiset(NextIds(t.nextPerson, |faces|))[q] else 0
  {
    if faces != [] {
      var front := faces[..|faces| - 1];
      AddPersonsLists(t, photo, front, path, q);
      AddPersonLists(AddPersons(t, photo, front), photo, faces[|faces| - 1], path, q);
      NextIdsCount(t.nextPerson, |faces|, q);
    }
  }

  lemma NextIdsCount(from: int, n: nat, q: int)
    requires n > 0
    ensures multiset(NextIds(from, n))[q] == multiset(NextIds(from, n - 1))[q] + if q == from + n - 1 then 1 else 0
  {
    assert multiset(NextIds(from, n - 1) + [from + n - 1]) == multiset(NextIds(from, n - 1)) + multiset{from + n - 1};
  }

  lemma {:induction false} KnownAreKnown(persons: map<int, Embedding>, faces: seq<Embedding>, matches: Matcher)
    requires MatchesKnown(matches)
    ensures forall k :: 0 <= k < |KnownPersons(persons, faces, matches)| ==>
              KnownPersons(persons, faces, matches)[k] in persons
  {
    if faces != [] { KnownAreKnown(persons, faces[..|faces| - 1], matches); }
  }

  /** The persons a photo gets from its faces: every known person matched, and one new
      person for each face no one matched. */
  ghost function FacePersons(t: Tables, faces: seq<Embedding>, matches: Matcher): multiset<int> {
    multiset(KnownPersons(t.persons, faces, matches))
    + multiset(NextIds(t.nextPerson, |NewFaces(t.persons, faces, matches)|))
  }

  lemma StoreFacesLists(t: Tables, photo: int, faces: seq<Embedding>, matches: Matcher, path: string, q: int)
    requires Sound(t) && photo in t.photos && MatchesKnown(matches)
    ensures var u := StoreFaces(t, photo, faces, matches);
            && Sound(u) && OnlyPersonsDiffer(t, u)
            && ListPersonByPhoto(u, path, q)
               == ListPersonByPhoto(t, path, q)
                  + if t.photos[photo] == path then FacePersons(t, faces, matches)[q] else 0
  {
    KnownAreKnown(t.persons, faces, matches);
    LinkPersonsLists(t, photo, KnownPersons(t.persons, faces, matches), path, q);
    AddPersonsLists(LinkPersons(t, photo, KnownPersons(t.persons, faces, matches)),
      photo, NewFaces(t.persons, faces, matches), path, q);
  }

  /** A freshly inserted photo lists nothing; other photos list what they did. */
  lemma PhotoAddLists(t: Tables, path: string, p: string, x: int)
    requires Sound(t)
    ensures var u := PhotoAdd(t, path).0;
            if p == path then ListClassByPhoto(u, p, x) == 0 && ListPersonByPhoto(u, p, x) == 0
            else ListClassByPhoto(u, p, x) == ListClassByPhoto(t, p, x)
                 && ListPersonByPhoto(u, p, x) == ListPersonByPhoto(t, p, x)
  {
    PhotoAddJoin(t.photoObjects, t.photos, t.objects, path, t.nextPhoto, p, x);
    PhotoAddJoin(t.photoPersons, t.photos, t.persons, path, t.nextPhoto, p, x);
  }

  lemma PhotoAddJoin<V>(links: map<int, Link>, photos: map<int, string>, others: map<int, V>, path: string, id: int,
                        p: string, x: int)
    requires NoDangling(links, photos, others) && id !in photos
    ensures var gone := IdsOf(photos, path);
            Times(JoinByPath(Cascade(links, gone), (photos - gone)[id := path], others, p), x)
            == if p == path then 0 else Times(JoinByPath(links, photos, others, p), x)
  {
    var gone := IdsOf(photos, path);
    var after := JoinByPath(Cascade(links, gone), (photos - gone)[id := path], others, p);
    var before := JoinByPath(links, photos, others, p);
    forall r | r in links ensures r in after <==> p != path && r in before {
      assert links[r].photo in photos && links[r].photo != id;
      assert links[r].photo in gone <==> photos[links[r].photo] == path;
    }
    assert RowsWith(after, x) == if p == path then {} else RowsWith(before, x);
  }

  /** Storing a scanned photo, new or seen before: it leaves the queue, has one row,
      lists exactly its labels and persons, and no other photo's listing moves. */
  lemma StorePhotoMeans(t: Tables, path: string, labels: seq<string>, faces: seq<Embedding>, matches: Matcher,
                        p: string, x: int)
    requires Sound(t) && MatchesKnown(matches)
    ensures var u := StorePhoto(t, path, labels, faces, matches);
            && Sound(u) && u.changed == t.changed - {path} && Paths(u) == Paths(t) + {path}
            && (x in u.objects ==> ListClassByPhoto(u, path, x) == multiset(labels)[u.objects[x]])
            && ListPersonByPhoto(u, path, x) == FacePersons(t, faces, matches)[x]
            && (p != path ==>
                ListClassByPhoto(u, p, x) == ListClassByPhoto(t, p, x) &&
                ListPersonByPhoto(u, p, x) == ListPersonByPhoto(t, p, x))
  {
    var t0 := ChangedRemove(t, path);
    var (t1, id) := PhotoAdd(t0, path);
    PhotoAddIsSound(t0, path);
    PhotoAddLists(t0, path, path, x);
    PhotoAddLists(t0, path, p, x);
    var t2 := StoreLabels(t1, id, labels);
    StoreLabelsKeeps(t1, id, labels);
    StoreLabelsLists(t1, id, labels, path, x);
    StoreLabelsLists(t1, id, labels, p, x);
    StoreFacesLists(t2, id, faces, matches, path, x);
    StoreFacesLists(t2, id, faces, matches, p, x);
  }

  // ---------------------------------------------------------------------------
  // What is kept of a face
  // ---------------------------------------------------------------------------

  /** The places of the faces that no known person matches. */
  ghost function Unmatched(persons: map<int, Embedding>, faces: seq<Embedding>, matches: Matcher): set<int> {
    set i | 0 <= i < |faces| && matches(persons, faces[i]) == []
  }

  /** Person `q` is new and holds the embedding of the i-th face. */
  ghost predicate NewPersonOf(persons: map<int, Embedding>, after: map<int, Embedding>, faces: seq<Embedding>, i: int,
                              q: int)
  {
    0 <= i < |faces| && q !in persons && q in after && after[q] == faces[i]
  }

  /** The table after a person with the next id was added for each face. */
  ghost predicate Extended(persons: map<int, Embedding>, next: int, faces: seq<Embedding>, after: map<int, Embedding>) {
    && Below(persons, next) && persons.Keys <= after.Keys && (forall q :: q in persons ==> after[q] == persons[q])
    && (forall q :: q in after && q !in persons ==> next <= q < next + |faces|)
    && (forall q :: next <= q < next + |faces| ==> q in after && after[q] == faces[q - next])
    && |after| == |persons| + |faces|
  }

  lemma ExtendedByOne(persons: map<int, Embedding>, next: int, faces: seq<Embedding>, before: map<int, Embedding>)
    requires faces != [] && next > 0 && Extended(persons, next, faces[..|faces| - 1], before)
    ensures Extended(persons, next, faces, before[next + |faces| - 1 := faces[|faces| - 1]])
  {
    assert next + |faces| - 1 !in before;
  }

  lemma {:induction false} AddPersonsHold(t: Tables, photo: int, faces: seq<Embedding>)
    requires Sound(t) && photo in t.photos
    ensures Extended(t.persons, t.nextPerson, faces, AddPersons(t, photo, faces).persons)
  {
    if faces != [] {
      var front := faces[..|faces| - 1];
      var before := AddPersons(t, photo, front);
      AddPersonsHold(t, photo, front);
      AddPersonsLists(t, photo, front, "", 0);
      ExtendedByOne(t.persons, t.nextPerson, faces, before.persons);
      PersonAddHolds(before, photo, faces[|faces| - 1]);
    }
  }

  lemma PersonAddHolds(t: Tables, photo: int, v: Embedding)
    ensures var (u, id) := PersonAdd(t, v);
            PhotoPersonAdd(u, photo, id).persons == t.persons[t.nextPerson := v]
  {
  }

  /** The faces kept for later are those no one matches, each as often as it comes. */
  lemma {:induction false} NewFacesAre(persons: map<int, Embedding>, faces: seq<Embedding>, matches: Matcher)
    ensures |NewFaces(persons, faces, matches)| == |Unmatched(persons, faces, matches)|
    ensures forall v :: v in NewFaces(persons, faces, matches) <==>
                        exists i :: i in Unmatched(persons, faces, matches) && faces[i] == v
  {
    if faces == [] {
      assert Unmatched(persons, faces, matches) == {};
    } else {
      var last := |faces| - 1;
      NewFacesAre(persons, faces[..last], matches);
      OneMoreFace(persons, faces, matches, last);
      assert forall i :: i in Unmatched(persons, faces[..last], matches) ==> faces[..last][i] == faces[i];
    }
  }

  lemma OneMoreFace(persons: map<int, Embedding>, faces: seq<Embedding>, matches: Matcher, last: nat)
    requires last + 1 == |faces|
    ensures var before, now := Unmatched(persons, faces[..last], matches), Unmatched(persons, faces, matches);
            && last !in before && now == before + (if matches(persons, faces[last]) == [] then {last} else {})
            && |now| == |before| + (if matches(persons, faces[last]) == [] then 1 else 0)
  {
    var before, now := Unmatched(persons, faces[..last], matches), Unmatched(persons, faces, matches);
    assert now == before + if matches(persons, faces[last]) == [] then {last} else {};
  }

  /** The known persons are as they were, and there is one new person for each face no one matches,
      with the embedding of that face. */
  ghost predicate FacesKept(persons: map<int, Embedding>, faces: seq<Embedding>, matches: Matcher,
                            after: map<int, Embedding>)
  {
    && persons.Keys <= after.Keys && (forall q :: q in persons ==> after[q] == persons[q])
    && (forall q {:trigger HasFace(persons, faces, matches, after, q)} ::
          q in after && q !in persons ==> HasFace(persons, faces, matches, after, q))
    && (forall i {:trigger HasPerson(persons, faces, after, i)} ::
          i in Unmatched(persons, faces, matches) ==> HasPerson(persons, faces, after, i))
    && |after| == |persons| + |Unmatched(persons, faces, matches)|
  }

  /** The person holds a face that no one matched. */
  ghost predicate HasFace(persons: map<int, Embedding>, faces: seq<Embedding>, matches: Matcher,
                          after: map<int, Embedding>, q: int)
  {
    exists i :: i in Unmatched(persons, faces, matches) && NewPersonOf(persons, after, faces, i, q)
  }

  ghost predicate HasPerson(persons: map<int, Embedding>, faces: seq<Embedding>, after: map<int, Embedding>, i: int) {
    exists q :: NewPersonOf(persons, after, faces, i, q)
  }

  lemma ExtendedKeepsFaces(persons: map<int, Embedding>, next: int, faces: seq<Embedding>, matches: Matcher,
                           added: seq<Embedding>, after: map<int, Embedding>)
    requires added == NewFaces(persons, faces, matches) && Extended(persons, next, added, after)
    ensures FacesKept(persons, faces, matches, after)
  {
    NewFacesAre(persons, faces, matches);
    forall q | q in after && q !in persons ensures HasFace(persons, faces, matches, after, q) {
      assert added[q - next] in added;
      var i :| i in Unmatched(persons, faces, matches) && faces[i] == added[q - next];
      assert NewPersonOf(persons, after, faces, i, q);
    }
    forall i | i in Unmatched(persons, faces, matches) ensures HasPerson(persons, faces, after, i) {
      assert faces[i] in added;
      var k :| 0 <= k < |added| && added[k] == faces[i];
      assert NewPersonOf(persons, after, faces, i, next + k);
    }
  }

  /** Storing faces keeps them all. */
  lemma NewPersonsHoldFaces(t: Tables, photo: int, faces: seq<Embedding>, matches: Matcher)
    requires Sound(t) && photo in t.photos && MatchesKnown(matches)
    ensures FacesKept(t.persons, faces, matches, StoreFaces(t, photo, faces, matches).persons)
  {
    var known, added := KnownPersons(t.persons, faces, matches), NewFaces(t.persons, faces, matches);
    var linked := LinkPersons(t, photo, known);
    KnownAreKnown(t.persons, faces, matches);
    LinkPersonsLists(t, photo, known, "", 0);
    AddPersonsHold(linked, photo, added);
    ExtendedKeepsFaces(t.persons, t.nextPerson, faces, matches, added, AddPersons(linked, photo, added).persons);
  }

  /** A matcher that goes through the table person by person. */
  ghost predicate MatchesNear(matches: Matcher, near: (Embedding, Embedding) -> bool) {
    && (forall v :: near(v, v))
    && forall persons, v, q :: q in matches(persons, v) <==> q in persons && near(persons[q], v)
  }

  /** A face once kept is known from then on: the same faces again add no person. */
  lemma FacesAreKnownNextTime(persons: map<int, Embedding>, faces: seq<Embedding>, matches: Matcher,
                              near: (Embedding, Embedding) -> bool, after: map<int, Embedding>,
                              again: map<int, Embedding>)
    requires MatchesNear(matches, near)
    requires FacesKept(persons, faces, matches, after) && FacesKept(after, faces, matches, again)
    ensures again == after
  {
    forall i | 0 <= i < |faces| ensures i !in Unmatched(after, faces, matches) {
      MatchedNextTime(persons, faces, matches, near, after, i);
    }
    forall q | q in again ensures q in after {
      assert q !in after ==> HasFace(after, faces, matches, again, q);
    }
    forall q ensures (q in after <==> q in again) && (q in after ==> again[q] == after[q]) {
      assert q in after ==> q in after.Keys;
    }
  }

  lemma MatchedNextTime(persons: map<int, Embedding>, faces: seq<Embedding>, matches: Matcher,
                        near: (Embedding, Embedding) -> bool, after: map<int, Embedding>, i: nat)
    requires MatchesNear(matches, near) && FacesKept(persons, faces, matches, after) && i < |faces|
    ensures matches(after, faces[i]) != []
  {
    var q;
    if i in Unmatched(persons, faces, matches) {
      assert HasPerson(persons, faces, after, i);
      q :| NewPersonOf(persons, after, faces, i, q);
    } else {
      q := matches(persons, faces[i])[0];
      assert q in matches(persons, faces[i]);
    }
    assert near(after[q], faces[i]);
    assert q in matches(after, faces[i]);
  }

  // ---------------------------------------------------------------------------
  // What the client's statements do
  // ---------------------------------------------------------------------------

  /** Queueing adds exactly one path; emptying the library leaves no row in any table. */
  lemma QueuedAndEmptied(t: Tables, path: string)
    ensures ChangedAdd(t, path).changed == t.changed + {path} && Paths(ChangedAdd(t, path)) == Paths(t)
    ensures var u := RemoveAll(t);
            && u.changed == {} && Paths(u) == {}
            && |u.photos| == |u.objects| == |u.persons| == |u.photoObjects| == |u.photoPersons| == 0
  {
    assert Paths(RemoveAll(t)) == {};
  }

  /** Removing a photo takes its listings with it and no other photo's. */
  lemma PhotoRemoveLists(t: Tables, path: string, p: string, x: int)
    requires Sound(t)
    ensures var u := PhotoRemove(t, path);
            if p == path then ListClassByPhoto(u, p, x) == 0 && ListPersonByPhoto(u, p, x) == 0
            else ListClassByPhoto(u, p, x) == ListClassByPhoto(t, p, x)
                 && ListPersonByPhoto(u, p, x) == ListPersonByPhoto(t, p, x)
    ensures var u := PhotoRemove(t, path);
            u.changed == t.changed && u.objects == t.objects && u.persons == t.persons
  {
    RemovedJoin(t.photoObjects, t.photos, t.objects, path, p, x);
    RemovedJoin(t.photoPersons, t.photos, t.persons, path, p, x);
  }

  lemma RemovedJoin<V>(links: map<int, Link>, photos: map<int, string>, others: map<int, V>, path: string, p: string,
                       x: int)
    ensures var gone := IdsOf(photos, path);
            Times(JoinByPath(Cascade(links, gone), photos - gone, others, p), x)
            == if p == path then 0 else Times(JoinByPath(links, photos, others, p), x)
  {
    var gone := IdsOf(photos, path);
    var after := JoinByPath(Cascade(links, gone), photos - gone, others, p);
    var before := JoinByPath(links, photos, others, p);
    assert RowsWith(after, x) == if p == path then {} else RowsWith(before, x);
  }

  /** A renamed photo keeps its listings under the new path; no other photo's change. */
  lemma PhotoMoveLists(t: Tables, from: string, to: string, p: string, x: int)
    requires Sound(t) && from != to && from in Paths(t) && to !in Paths(t)
    ensures PhotoMove(t, from, to).Success?
    ensures var u := PhotoMove(t, from, to).value;
            var p0 := if p == to then from else p;
            if p == from then ListClassByPhoto(u, p, x) == 0 && ListPersonByPhoto(u, p, x) == 0
            else ListClassByPhoto(u, p, x) == ListClassByPhoto(t, p0, x)
                 && ListPersonByPhoto(u, p, x) == ListPersonByPhoto(t, p0, x)
  {
    PathHasRow(t, to);
    var u := PhotoMove(t, from, to).value;
    assert forall i :: i in t.photos ==> t.photos[i] != to;
    RenamedJoin(t.photoObjects, t.photos, u.photos, t.objects, from, to, p, x);
    RenamedJoin(t.photoPersons, t.photos, u.photos, t.persons, from, to, p, x);
  }

  lemma RenamedJoin<V>(links: map<int, Link>, photos: map<int, string>, photos': map<int, string>,
                       others: map<int, V>, from: string, to: string, p: string, x: int)
    requires from != to && photos'.Keys == photos.Keys
    requires forall i :: i in photos ==> photos[i] != to && photos'[i] == if photos[i] == from then to else photos[i]
    ensures Times(JoinByPath(links, photos', others, p), x)
         == if p == from then 0 else Times(JoinByPath(links, photos, others, if p == to then from else p), x)
  {
    var after := JoinByPath(links, photos', others, p);
    var before := JoinByPath(links, photos, others, if p == to then from else p);
    assert forall i :: i in photos <==> i in photos'.Keys;
    assert RowsWith(after, x) == if p == from then {} else RowsWith(before, x);
  }
}
