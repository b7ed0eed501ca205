/**
 * The HTTP routes over the state record and the screenshot archive: each
 * route's gate, in the order the middleware runs, then the handler.
 */
module Server {
  import opened Wrappers
  import opened Cells
  import opened Auth
  import opened Roster
  import opened Screenshots
  import opened Http

  /** The form field the roster spreadsheet must arrive in. */
  const SheetField: string := "file"

  /** An uploaded spreadsheet part: its form field and the rows of its first sheet. */
  datatype SheetUpload = SheetUpload(field: string, rows: seq<seq<Cell>>)

  /** `GET /api/state`: the whole record, for anyone. */
  method GetState(st: State) returns (r: Response)
    ensures r == Current(st.View())
  {
    r := Current(st.View());
  }

  /**
   * `POST /api/upload`: the multipart parser runs before the route's own
   * role check, so a part in the wrong field fails even without a session.
   * A missing file or a sheet without rows throws inside the handler.
   */
  method PostUpload(st: State, user: Option<User>, sheet: Option<SheetUpload>) returns (r: Response)
    requires st.Valid()
    modifies st
    ensures st.Valid()
    ensures sheet.Some? && sheet.value.field != SheetField ==>
      r == Crash("Unexpected field") && st.View() == old(st.View())
    ensures (sheet.None? || sheet.value.field == SheetField) && !MayImport(user) ==>
      r == Forbidden && st.View() == old(st.View())
    ensures MayImport(user) && sheet.None? ==>
      r == Crash("Cannot read properties of undefined (reading 'path')") && st.View() == old(st.View())
    ensures MayImport(user) && sheet.Some? && sheet.value.field == SheetField && sheet.value.rows == [] ==>
      r == Crash("Cannot read properties of undefined (reading '0')") && st.View() == old(st.View())
    ensures MayImport(user) && sheet.Some? && sheet.value.field == SheetField && sheet.value.rows != [] ==>
      r == Imported(|st.pool|) && st.View() == AfterImport(sheet.value.rows)
  {
    if sheet.Some? && sheet.value.field != SheetField {
      return Crash("Unexpected field");
    }
    if !MayImport(user) {
      return Forbidden;
    }
    if sheet.None? {
      return Crash("Cannot read properties of undefined (reading 'path')");
    }
    var count := st.Import(sheet.value.rows);
    if count.None? {
      return Crash("Cannot read properties of undefined (reading '0')");
    }
    r := Imported(count.value);
  }

  /** `POST /api/draw`, admin only. `perm` is the order the random sort put the pool in. */
  method PostDraw(st: State, user: Option<User>, count: Option<int>, perm: seq<nat>) returns (r: Response)
    requires st.Valid()
    requires IsPermutation(perm, |st.pool|)
    modifies st
    ensures st.Valid()
    ensures !HasRole(user, AdminRole) ==> r == Forbidden && st.View() == old(st.View())
    ensures HasRole(user, AdminRole) ==>
      && st.View() == old(st.View()).(winners := Winners(old(st.pool), count, perm))
      && r == Drawn(st.winners)
      && |st.winners| == Min(EffectiveCount(count), |st.pool|)
  {
    if !HasRole(user, AdminRole) {
      return Forbidden;
    }
    var drawn := st.Draw(count, perm);
    r := Drawn(drawn);
  }

  /** `POST /api/clear-winners`, admin only. */
  method PostClearWinners(st: State, user: Option<User>) returns (r: Response)
    requires st.Valid()
    modifies st
    ensures st.Valid()
    ensures !HasRole(user, AdminRole) ==> r == Forbidden && st.View() == old(st.View())
    ensures HasRole(user, AdminRole) ==> r == Done && st.View() == old(st.View()).(winners := [])
  {
    if !HasRole(user, AdminRole) {
      return Forbidden;
    }
    st.ClearWinners();
    r := Done;
  }

  /** `POST /api/clear-list`, admin only. */
  method PostClearList(st: State, user: Option<User>) returns (r: Response)
    requires st.Valid()
    modifies st
    ensures st.Valid()
    ensures !HasRole(user, AdminRole) ==> r == Forbidden && st.View() == old(st.View())
    ensures HasRole(user, AdminRole) ==> r == Done && st.View() == InitialSnapshot
  {
    if !HasRole(user, AdminRole) {
      return Forbidden;
    }
    st.ClearList();
    r := Done;
  }

  /** `POST /api/upload-screenshot`: the admin gate runs before the multipart parser. */
  method PostUploadScreenshot(archive: Archive, user: Option<User>, upload: Option<Upload>, now: nat)
    returns (r: Response)
    requires archive.Valid()
    modifies archive
    ensures archive.Valid()
    ensures !HasRole(user, AdminRole) ==> r == Forbidden && archive.fs == old(archive.fs)
    ensures HasRole(user, AdminRole) && upload.Some? && Rejection(upload.value).None?
            && !IsDirectory(old(archive.fs), archive.Target(now, upload.value)) ==>
      r == Stored(StoredName(now, upload.value.originalname))
      && archive.fs == old(archive.fs)[archive.Target(now, upload.value) := File(now)]
    ensures !r.Stored? ==> archive.fs == old(archive.fs)
  {
    if !HasRole(user, AdminRole) {
      return Forbidden;
    }
    r := archive.Store(upload, now);
  }

  /** `GET /api/screenshots`, for anyone. */
  method GetScreenshots(archive: Archive, order: seq<string>) returns (r: Response)
    requires archive.Valid()
    requires forall n :: n in order <==> archive.dir + [n] in archive.fs
    ensures r.Screenshots?
    ensures forall n :: n in r.names <==> archive.dir + [n] in archive.fs && Gallery.IsImageName(n)
    ensures Gallery.NewestFirst(r.names, archive.Stamps(order))
  {
    r := archive.List(order);
  }

  /** `DELETE /api/screenshots/:filename`, admin only. */
  method DeleteScreenshot(archive: Archive, user: Option<User>, filename: string, failure: Option<string>)
    returns (r: Response)
    requires archive.Valid()
    modifies archive
    ensures archive.Valid()
    ensures !HasRole(user, AdminRole) ==> r == Forbidden && archive.fs == old(archive.fs)
    ensures HasRole(user, AdminRole) && !Paths.PassesPrefixCheck(archive.dir, filename) ==>
      r == Forbidden && archive.fs == old(archive.fs)
    ensures r.Done? ==> archive.fs == old(archive.fs) - {Paths.Join(archive.dir, filename).segs}
    ensures !r.Done? ==> archive.fs == old(archive.fs)
  {
    if !HasRole(user, AdminRole) {
      return Forbidden;
    }
    r := archive.Delete(filename, failure);
  }
}
