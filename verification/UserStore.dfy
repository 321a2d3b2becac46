/** The user store as an object updating its two maps. */
module UserStore {
  import opened Accounts
  import opened Wrappers

  class UserStore {
    var byUid: map<Uid, UserRecord>
    var byName: map<string, Uid>

    function View(): Store
      reads this
    {
      Store(byUid, byName)
    }

    constructor ()
      ensures View() == EMPTY
    {
      byUid, byName := map[], map[];
    }

    /** Walks the used uids in ascending order. */
    method NextFree() returns (candidate: Uid)
      ensures candidate == NextUid(byUid.Keys)
      ensures LowestFree(byUid.Keys, candidate) || (RangeFull(byUid.Keys) && candidate == MAX_UID)
    {
      candidate := FIRST_USER_UID;
      var rest := byUid.Keys;
      while rest != {}
        invariant rest <= byUid.Keys
        invariant FIRST_USER_UID <= candidate
        invariant forall k: Uid :: FIRST_USER_UID <= k < candidate ==> k in byUid
        invariant forall k :: k in byUid && k !in rest ==> k < candidate || candidate == MAX_UID
        decreases rest
      {
        LeastExists(rest);
        var uid :| uid in rest && IsLeast(rest, uid);
        rest := rest - {uid};
        if uid == candidate {
          candidate := if candidate < MAX_UID then candidate + 1 else MAX_UID;
        } else if uid > candidate {
          break;
        }
      }
      assert candidate in byUid ==> candidate == MAX_UID;
      NextUidIs(byUid.Keys, FIRST_USER_UID);
    }

    method Insert(record: UserRecord) returns (r: Result<(), AuthError>)
      modifies this
      ensures r == (match Accounts.Insert(old(View()), record) case Ok(_) => Ok(()) case Err(e) => Err(e))
      ensures View() == (match Accounts.Insert(old(View()), record) case Ok(s) => s case Err(_) => old(View()))
      ensures r == Err(UidTaken) <==> record.uid in old(byUid)
      ensures r == Err(UsernameTaken) <==> record.uid !in old(byUid) && record.username in old(byName)
      ensures r.Ok? ==> byUid == old(byUid)[record.uid := record]
      ensures r.Ok? ==> byName == old(byName)[record.username := record.uid]
      ensures r.Err? ==> View() == old(View())
      ensures old(Inverse(View())) ==> Inverse(View())
    {
      if record.uid in byUid { return Err(UidTaken); }
      if record.username in byName { return Err(UsernameTaken); }
      byName := byName[record.username := record.uid];
      byUid := byUid[record.uid := record];
      r := Ok(());
    }

    method Remove(uid: Uid) returns (r: Option<UserRecord>)
      modifies this
      ensures r == if uid in old(byUid) then Some(old(byUid)[uid]) else None
      ensures View() == Accounts.Remove(old(View()), uid)
      ensures byUid == old(byUid) - {uid}
      ensures byName == if uid in old(byUid) then old(byName) - {old(byUid)[uid].username} else old(byName)
      ensures old(Inverse(View())) ==> Inverse(View())
    {
      if uid !in byUid { return None; }
      var record := byUid[uid];
      byUid := byUid - {uid};
      byName := byName - {record.username};
      r := Some(record);
    }

    method CreateAccount(a: Application) returns (r: Result<Uid, AuthError>)
      modifies this
      ensures r == (match Create(old(View()), a) case Ok(p) => Ok(p.1) case Err(e) => Err(e))
      ensures View() == (match Create(old(View()), a) case Ok(p) => p.0 case Err(_) => old(View()))
      ensures r.Ok? <==> IsValidUsername(a.username) && a.username !in old(byName) && !RangeFull(old(byUid).Keys)
      ensures r == Err(InvalidUsername) <==> !IsValidUsername(a.username)
      ensures r == Err(UsernameTaken) <==> IsValidUsername(a.username) && a.username in old(byName)
      ensures r.Ok? ==> LowestFree(old(byUid).Keys, r.value)
      ensures r.Ok? ==> r.value in byUid && RecordFor(a, r.value, byUid[r.value])
      ensures r.Ok? ==> byUid == old(byUid)[r.value := byUid[r.value]] && byName == old(byName)[a.username := r.value]
      ensures r.Err? ==> View() == old(View())
      ensures old(Inverse(View())) ==> Inverse(View())
    {
      CreateSucceedsIff(View(), a);
      if !IsValidUsername(a.username) { return Err(InvalidUsername); }
      if a.username in byName { return Err(UsernameTaken); }
      var uid := NextFree();
      var inserted := Insert(NewRecord(a, uid));
      if inserted.Err? { return Err(inserted.error); }
      r := Ok(uid);
    }
  }

  predicate IsLeast(s: set<Uid>, u: Uid) { forall k :: k in s ==> u <= k }

  lemma {:induction false} LeastExists(s: set<Uid>)
    requires s != {}
    ensures exists u :: u in s && IsLeast(s, u)
  {
    var u :| u in s;
    var rest := s - {u};
    if rest == {} {
      assert s == {u};
      assert IsLeast(s, u);
    } else {
      LeastExists(rest);
      var v :| v in rest && IsLeast(rest, v);
      assert forall k :: k in s ==> k == u || k in rest;
      assert IsLeast(s, if u <= v then u else v);
    }
  }
}
