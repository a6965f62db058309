/** Who is told about a change to a space, and the guards around telling
    them. Notifications go to the remote queue as `createUserNotification`
    operations. The member list, the group users who added cards, the group
    lookup and the edit permission come from other stores and are inputs. */
module UserNotifications {
  import opened Common
  import opened Seqs

  /** The name of the space a new user starts in; it sends no notifications. */
  const HelloSpaceName: string := "Hello Kinopio"

  /** What the recipient getters read from the rest of the app: the current
      user, the space's privacy, the ids of its members, the `userId` of each
      of its cards, and the ids of group users who added cards. */
  datatype Audience = Audience(
    currentUserId: string,
    privacy: string,
    memberIds: seq<string>,
    contributorIds: seq<string>,
    groupUserIds: seq<string>)

  /** The current space, as the notification actions should see it. */
  datatype SpaceInfo = SpaceInfo(id: string, name: string)

  /** A notification body; an absent key is the empty string. */
  datatype Notification = Notification(
    kind: string,
    cardId: string,
    userId: string,
    recipientUserIds: seq<string>,
    spaceId: string,
    groupId: string)

  // ---------------------------------------------------------------------
  // recipients

  /** The last two filters of both getters: drop the current user, then every
      falsy id. */
  function Eligible(ids: seq<string>, currentUserId: string): (r: seq<string>)
    ensures forall u :: u in r <==> u in ids && u != currentUserId && u != ""
    ensures NoDup(ids) ==> NoDup(r)
  {
    var p := u => u != currentUserId && u != "";
    if NoDup(ids) then FilterNoDup(ids, p); Filter(ids, p) else Filter(ids, p)
  }

  /** `recipientUserIds`: members, then (in an open space only) card
      contributors, then group users who added cards; first occurrences
      kept; never the current user, never a falsy id. */
  function RecipientUserIds(a: Audience): (r: seq<string>)
    ensures NoDup(r)
    ensures a.currentUserId !in r && "" !in r
    ensures forall u :: u in r <==>
      && u != "" && u != a.currentUserId
      && (u in a.memberIds || u in a.groupUserIds || (a.privacy == "open" && u in a.contributorIds))
  {
    var recipients := if a.privacy == "open" then a.memberIds + a.contributorIds else a.memberIds;
    Eligible(Uniq(recipients + a.groupUserIds), a.currentUserId)
  }

  /** `recipientMemberIds`: as `recipientUserIds`, without contributors. */
  function RecipientMemberIds(a: Audience): (r: seq<string>)
    ensures NoDup(r)
    ensures a.currentUserId !in r && "" !in r
    ensures forall u :: u in r <==>
      u != "" && u != a.currentUserId && (u in a.memberIds || u in a.groupUserIds)
  {
    Eligible(Uniq(a.memberIds + a.groupUserIds), a.currentUserId)
  }

  /** Outside an open space the two getters agree, and every member
      recipient is always a user recipient. */
  lemma RecipientsOfClosedSpace(a: Audience)
    ensures a.privacy != "open" ==> RecipientUserIds(a) == RecipientMemberIds(a)
    ensures forall u | u in RecipientMemberIds(a) :: u in RecipientUserIds(a)
  {
  }

  // ---------------------------------------------------------------------
  // card updates

  /** The ids already notified about, and the operations queued so far. */
  datatype Notified = Notified(notifiedCardIds: seq<string>, queued: seq<Operation<Notification>>)

  /** `addCardUpdated`, given what its space-name guard and its `spaceId`
      read: nothing for a missing card id, a space with the hello name, a card
      already notified about, a user who cannot edit, or no recipients;
      otherwise one notification, and the card id is recorded. */
  function AddCardUpdatedWith(notified: seq<string>, cardId: string, kind: string, guardName: string,
                              spaceId: string, userCanEdit: bool, a: Audience): (r: Notified)
    ensures var sent := cardId != "" && guardName != HelloSpaceName && cardId !in notified
                        && userCanEdit && |RecipientUserIds(a)| > 0;
      && (!sent ==> r == Notified(notified, []))
      && (sent ==> r.notifiedCardIds == notified + [cardId]
                   && r.queued == [Operation("createUserNotification",
                        Notification(kind, cardId, a.currentUserId, RecipientUserIds(a), spaceId, ""))])
  {
    if cardId == "" then Notified(notified, [])
    else if guardName == HelloSpaceName then Notified(notified, [])
    else if cardId in notified then Notified(notified, [])
    else if !userCanEdit then Notified(notified, [])
    else
      var recipients := RecipientUserIds(a);
      if |recipients| == 0 then Notified(notified, [])
      else
        var n := Notification(kind, cardId, a.currentUserId, recipients, spaceId, "");
        Notified(notified + [cardId], [Operation("createUserNotification", n)])
  }

  /** `addCardUpdated` as the JavaScript writes it: the guard and the `spaceId`
      read `context.state`, and this module has no state, so both read
      `undefined` whatever the current space is. */
  function AddCardUpdatedAsWritten(notified: seq<string>, cardId: string, kind: string, space: SpaceInfo,
                                   userCanEdit: bool, a: Audience): (r: Notified)
    ensures forall i | 0 <= i < |r.queued| :: r.queued[i].body.spaceId == ""
  {
    AddCardUpdatedWith(notified, cardId, kind, "", "", userCanEdit, a)
  }

  /** As written, a card edited in the hello space is still announced, and
      the notification names no space; the corrected action sends nothing. */
  lemma HelloSpaceNotifiedAsWritten(cardId: string, kind: string, space: SpaceInfo, a: Audience)
    requires cardId != "" && space.name == HelloSpaceName && |RecipientUserIds(a)| > 0
    ensures |AddCardUpdatedAsWritten([], cardId, kind, space, true, a).queued| == 1
    ensures AddCardUpdatedAsWritten([], cardId, kind, space, true, a).queued[0].body.spaceId == ""
    ensures AddCardUpdated([], cardId, kind, space, true, a).queued == []
  {
  }

  /** `addCardUpdated` reading the current space's name and id. */
  function AddCardUpdated(notified: seq<string>, cardId: string, kind: string, space: SpaceInfo,
                          userCanEdit: bool, a: Audience): (r: Notified)
    ensures |r.queued| <= 1
    ensures |r.queued| == 1 <==>
      cardId != "" && space.name != HelloSpaceName && cardId !in notified && userCanEdit && |RecipientUserIds(a)| > 0
    ensures |r.queued| == 1 ==>
      && r.notifiedCardIds == notified + [cardId]
      && r.queued[0].body.cardId == cardId && r.queued[0].body.spaceId == space.id
      && r.queued[0].body.recipientUserIds == RecipientUserIds(a)
    ensures |r.queued| == 0 ==> r.notifiedCardIds == notified
  {
    AddCardUpdatedWith(notified, cardId, kind, space.name, space.id, userCanEdit, a)
  }

  /** One call of `addCardUpdated`. */
  datatype CardUpdate = CardUpdate(cardId: string, kind: string, space: SpaceInfo, userCanEdit: bool, audience: Audience)

  /** A run of `addCardUpdated` calls sharing the module-level list of
      notified card ids. */
  function RunCardUpdates(notified: seq<string>, calls: seq<CardUpdate>): (r: Notified)
    decreases |calls|
  {
    if |calls| == 0 then Notified(notified, [])
    else
      var c := calls[0];
      var first := AddCardUpdated(notified, c.cardId, c.kind, c.space, c.userCanEdit, c.audience);
      var rest := RunCardUpdates(first.notifiedCardIds, calls[1..]);
      Notified(rest.notifiedCardIds, first.queued + rest.queued)
  }

  /** The number of queued notifications about `cardId`. */
  function CountFor(ops: seq<Operation<Notification>>, cardId: string): nat
    decreases |ops|
  {
    if |ops| == 0 then 0
    else (if ops[0].body.cardId == cardId then 1 else 0) + CountFor(ops[1..], cardId)
  }

  /** Counting over a concatenation adds the counts. */
  lemma {:induction false} CountForAppend(a: seq<Operation<Notification>>, b: seq<Operation<Notification>>, cardId: string)
    ensures CountFor(a + b, cardId) == CountFor(a, cardId) + CountFor(b, cardId)
    decreases |a|
  {
    if |a| > 0 {
      assert (a + b)[1..] == a[1..] + b;
      CountForAppend(a[1..], b, cardId);
    } else {
      assert a + b == b;
    }
  }

  /** Over any run of calls, a card gets a notification exactly when it is
      newly recorded as notified, so never more than one, and none at all
      when it was notified before the run. The recorded list only grows. */
  lemma {:induction false} NotifiedAtMostOnce(notified: seq<string>, calls: seq<CardUpdate>, cardId: string)
    ensures var r := RunCardUpdates(notified, calls);
      && CountFor(r.queued, cardId) == (if cardId in r.notifiedCardIds && cardId !in notified then 1 else 0)
      && (forall k | k in notified :: k in r.notifiedCardIds)
    decreases |calls|
  {
    if |calls| > 0 {
      var c := calls[0];
      var first := AddCardUpdated(notified, c.cardId, c.kind, c.space, c.userCanEdit, c.audience);
      NotifiedAtMostOnce(first.notifiedCardIds, calls[1..], cardId);
      var rest := RunCardUpdates(first.notifiedCardIds, calls[1..]);
      CountForAppend(first.queued, rest.queued, cardId);
      if |first.queued| == 1 {
        assert first.queued[1..] == [];
        assert cardId in first.notifiedCardIds <==> cardId in notified || cardId == c.cardId;
      }
    }
  }

  // ---------------------------------------------------------------------
  // groups

  /** A group, as far as its users' ids. */
  datatype Group = Group(id: string, userIds: seq<string>)

  /** The users of a group other than `userId`, in order. */
  function OtherUsers(ids: seq<string>, userId: string): (r: seq<string>)
    ensures forall u :: u in r <==> u in ids && u != userId
  {
    Filter(ids, u => u != userId)
  }

  /** `addSpaceToGroup`: when the user can edit and the group is found, one
      notification to the group's other users, without repeats, unless there
      are none. A group that is not found throws, and nothing is queued. */
  function AddSpaceToGroup(group: Option<Group>, groupId: string, addedByUserId: string, userCanEdit: bool,
                           space: SpaceInfo): (r: seq<Operation<Notification>>)
    ensures |r| <= 1
    ensures !userCanEdit || group.None? ==> r == []
    ensures |r| == 1 ==>
      && NoDup(r[0].body.recipientUserIds)
      && addedByUserId !in r[0].body.recipientUserIds
      && (forall u :: u in r[0].body.recipientUserIds <==> u in group.value.userIds && u != addedByUserId)
      && r[0].body.spaceId == space.id && r[0].body.groupId == groupId && r[0].body.userId == addedByUserId
    ensures userCanEdit && group.Some? ==>
      (|r| == 0 <==> forall u | u in group.value.userIds :: u == addedByUserId)
  {
    if !userCanEdit then []
    else if group.None? then []
    else
      var recipients := Uniq(OtherUsers(group.value.userIds, addedByUserId));
      if |recipients| == 0 then []
      else
        assert recipients[0] in recipients;
        [Operation("createUserNotification",
           Notification("addSpaceToGroup", "", addedByUserId, recipients, space.id, groupId))]
  }
}
