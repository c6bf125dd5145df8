/**
 * The persisted session (UserPreferences): one optional user id, shared by
 * both view-models. An absent id means nobody is logged in.
 */
module UserPreferences {
  import opened Wrappers

  class UserPreferences {
    var userId: Option<int>

    constructor ()
      ensures userId == None
    {
      userId := None;
    }

    /** `saveUserId`. */
    method SaveUserId(id: int)
      modifies this
      ensures userId == Some(id)
    {
      userId := Some(id);
    }

    /** `clearUserId`. */
    method ClearUserId()
      modifies this
      ensures userId == None
    {
      userId := None;
    }
  }
}
