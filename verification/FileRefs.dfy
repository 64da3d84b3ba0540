/** The reference counts of stored files across the handlers of api/ (one request at a time). */
module FileRefs {
  import opened Common

  /** Rows of file_info (by md5), user_file_list and share_picture_list, in the columns that matter here. */
  datatype FileInfo = FileInfo(count: int, fileId: string)
  datatype UserFile = UserFile(user: string, md5: string, name: string)
  datatype Picture = Picture(user: string, md5: string, urlmd5: string)

  datatype Md5State = Md5Failed | Md5FileExists | Md5Ok
  datatype Outcome = Ok | Fail | FileExists

  function FilesOf(files: set<UserFile>, md5: string): set<UserFile> { set f | f in files && f.md5 == md5 }

  function PicturesOf(pictures: set<Picture>, md5: string): set<Picture> { set p | p in pictures && p.md5 == md5 }

  /** Rows that name an md5. */
  function Refs(files: set<UserFile>, pictures: set<Picture>, md5: string): nat {
    |FilesOf(files, md5)| + |PicturesOf(pictures, md5)|
  }

  lemma FilesPlus(files: set<UserFile>, f: UserFile, md5: string)
    requires f !in files
    ensures |FilesOf(files + {f}, md5)| == |FilesOf(files, md5)| + (if f.md5 == md5 then 1 else 0)
  {
    if f.md5 == md5 {
      assert FilesOf(files + {f}, md5) == FilesOf(files, md5) + {f};
    } else {
      assert FilesOf(files + {f}, md5) == FilesOf(files, md5);
    }
  }

  lemma FilesMinus(files: set<UserFile>, f: UserFile, md5: string)
    ensures |FilesOf(files - {f}, md5)| == |FilesOf(files, md5)| - (if f in files && f.md5 == md5 then 1 else 0)
  {
    if f in files {
      FilesPlus(files - {f}, f, md5);
      assert files - {f} + {f} == files;
    } else {
      assert files - {f} == files;
    }
  }

  lemma PicturesPlus(pictures: set<Picture>, p: Picture, md5: string)
    requires p !in pictures
    ensures |PicturesOf(pictures + {p}, md5)| == |PicturesOf(pictures, md5)| + (if p.md5 == md5 then 1 else 0)
  {
    if p.md5 == md5 {
      assert PicturesOf(pictures + {p}, md5) == PicturesOf(pictures, md5) + {p};
    } else {
      assert PicturesOf(pictures + {p}, md5) == PicturesOf(pictures, md5);
    }
  }

  /** Every count is the number of rows that name the file, and a file has a row exactly when there are such rows. */
  ghost predicate Counted(info: map<string, FileInfo>, files: set<UserFile>, pictures: set<Picture>) {
    forall m: string ::
      && (m in info <==> Refs(files, pictures, m) > 0)
      && (m in info ==> info[m].count == Refs(files, pictures, m))
  }

  /** Storage holds the files of the rows, one each. */
  ghost predicate Stored(info: map<string, FileInfo>, storage: set<string>) {
    && (forall m, n :: m in info && n in info && m != n ==> info[m].fileId != info[n].fileId)
    && (forall m :: m in info ==> info[m].fileId in storage)
    && (forall id :: id in storage ==> exists m :: m in info && info[m].fileId == id)
  }

  ghost predicate UrlsUnique(pictures: set<Picture>) {
    forall p, q :: p in pictures && q in pictures && p.urlmd5 == q.urlmd5 ==> p == q
  }

  /** A file is in storage exactly when some row names its md5. */
  lemma StoredIffReferenced(info: map<string, FileInfo>, files: set<UserFile>, pictures: set<Picture>, storage: set<string>)
    requires Counted(info, files, pictures) && Stored(info, storage)
    ensures forall id :: id in storage <==> exists m :: m in info && info[m].fileId == id && Refs(files, pictures, m) > 0
  {
  }

  // ---------- one row more or less ----------

  lemma RowIsCounted(files: set<UserFile>, pictures: set<Picture>, row: UserFile)
    requires row in files
    ensures Refs(files, pictures, row.md5) > 0
  {
    assert row in FilesOf(files, row.md5);
  }

  lemma PictureIsCounted(files: set<UserFile>, pictures: set<Picture>, p: Picture)
    requires p in pictures
    ensures Refs(files, pictures, p.md5) > 0
  {
    assert p in PicturesOf(pictures, p.md5);
  }

  /** file_info after `count = count + 1`, or with the row of a first reference. */
  function Increment(info: map<string, FileInfo>, md5: string, fileId: string): map<string, FileInfo> {
    if md5 in info then info[md5 := info[md5].(count := info[md5].count + 1)] else info[md5 := FileInfo(1, fileId)]
  }

  /** file_info after `count = count - 1`, without the row once it is zero. */
  function Decrement(info: map<string, FileInfo>, md5: string): map<string, FileInfo>
    requires md5 in info
  {
    if info[md5].count == 1 then info - {md5} else info[md5 := info[md5].(count := info[md5].count - 1)]
  }

  /** What leaves storage when a reference is taken away: the file whose only one it was. */
  function Reclaimed(info: map<string, FileInfo>, md5: string): set<string> {
    if md5 in info && info[md5].count == 1 then {info[md5].fileId} else {}
  }

  lemma NothingReclaimed(info: map<string, FileInfo>, md5: string)
    requires md5 !in info
    ensures Reclaimed(info, md5) == {}
  {
  }

  /** A file that was there is gone although some row names it. */
  ghost predicate Lost(before: map<string, FileInfo>, files: set<UserFile>, pictures: set<Picture>, storage: set<string>) {
    exists m :: m in before && before[m].fileId !in storage && Refs(files, pictures, m) > 0
  }

  lemma LostBy(info: map<string, FileInfo>, files: set<UserFile>, pictures: set<Picture>, storage: set<string>, row: UserFile)
    requires Counted(info, files, pictures) && Stored(info, storage)
    ensures Lost(info, files - {row}, pictures, storage - Reclaimed(info, row.md5)) <==>
      row !in files && row.md5 in info && info[row.md5].count == 1
  {
    hide FilesOf, PicturesOf;
    FilesMinus(files, row, row.md5);
    if row !in files && row.md5 in info && info[row.md5].count == 1 {
      assert Refs(files - {row}, pictures, row.md5) > 0;
    }
  }

  lemma AddFile(info: map<string, FileInfo>, files: set<UserFile>, pictures: set<Picture>, row: UserFile, fileId: string)
    requires Counted(info, files, pictures) && row !in files
    ensures Counted(Increment(info, row.md5, fileId), files + {row}, pictures)
  {
    forall m { FilesPlus(files, row, m); }
  }

  lemma RemoveFile(info: map<string, FileInfo>, files: set<UserFile>, pictures: set<Picture>, row: UserFile)
    requires Counted(info, files, pictures) && row in files
    ensures row.md5 in info && info[row.md5].count > 0
    ensures Counted(Decrement(info, row.md5), files - {row}, pictures)
  {
    RowIsCounted(files, pictures, row);
    forall m { FilesMinus(files, row, m); }
  }

  lemma AddPicture(info: map<string, FileInfo>, files: set<UserFile>, pictures: set<Picture>, p: Picture)
    requires Counted(info, files, pictures) && p !in pictures && p.md5 in info
    ensures Counted(Increment(info, p.md5, []), files, pictures + {p})
  {
    forall m { PicturesPlus(pictures, p, m); }
  }

  lemma RemovePicture(info: map<string, FileInfo>, files: set<UserFile>, pictures: set<Picture>, p: Picture)
    requires Counted(info, files, pictures) && p in pictures
    ensures p.md5 in info && info[p.md5].count > 0
    ensures Counted(Decrement(info, p.md5), files, pictures - {p})
  {
    PictureIsCounted(files, pictures, p);
    assert pictures - {p} + {p} == pictures;
    forall m { PicturesPlus(pictures - {p}, p, m); }
  }

  lemma StoredPlus(info: map<string, FileInfo>, storage: set<string>, md5: string, fileId: string)
    requires Stored(info, storage) && md5 !in info && fileId !in storage
    ensures Stored(info[md5 := FileInfo(1, fileId)], storage + {fileId})
  {
    var after := info[md5 := FileInfo(1, fileId)];
    forall id | id in storage + {fileId} ensures exists m :: m in after && after[m].fileId == id {
      if id == fileId {
        assert after[md5].fileId == id;
      } else {
        var m :| m in info && info[m].fileId == id;
        assert m in after && after[m].fileId == id;
      }
    }
  }

  lemma StoredSame(info: map<string, FileInfo>, storage: set<string>, md5: string, count: int)
    requires Stored(info, storage) && md5 in info
    ensures Stored(info[md5 := info[md5].(count := count)], storage)
  {
    var after := info[md5 := info[md5].(count := count)];
    forall id | id in storage ensures exists m :: m in after && after[m].fileId == id {
      var m :| m in info && info[m].fileId == id;
      assert m in after && after[m].fileId == id;
    }
  }

  lemma StoredMinus(info: map<string, FileInfo>, storage: set<string>, md5: string)
    requires Stored(info, storage) && md5 in info
    ensures Stored(info - {md5}, storage - {info[md5].fileId})
  {
    var after := info - {md5};
    forall id | id in storage - {info[md5].fileId} ensures exists m :: m in after && after[m].fileId == id {
      var m :| m in info && info[m].fileId == id;
      assert m in after && after[m].fileId == id;
    }
  }

  /** Taking a reference away where no row went: the count is wrong from then on. */
  lemma UndercountBreaks(info: map<string, FileInfo>, files: set<UserFile>, pictures: set<Picture>, md5: string)
    requires Counted(info, files, pictures) && md5 in info
    ensures !Counted(Decrement(info, md5), files, pictures)
  {
    assert md5 in info <==> Refs(files, pictures, md5) > 0;
    assert Decrement(info, md5) != info;
  }

  /** Counting a reference where no row came. */
  lemma OvercountBreaks(info: map<string, FileInfo>, files: set<UserFile>, pictures: set<Picture>, md5: string)
    requires Counted(info, files, pictures) && md5 in info
    ensures !Counted(Increment(info, md5, []), files, pictures)
  {
    assert Increment(info, md5, [])[md5].count == Refs(files, pictures, md5) + 1;
  }

  /** A row for a file that does not exist. */
  lemma DanglingBreaks(info: map<string, FileInfo>, files: set<UserFile>, pictures: set<Picture>, p: Picture)
    requires p !in pictures && p.md5 !in info
    ensures !Counted(info, files, pictures + {p})
  {
    PictureIsCounted(files, pictures + {p}, p);
  }

  // ---------- the handlers ----------

  class Tables {
    var fileInfo: map<string, FileInfo>
    var userFiles: set<UserFile>
    var pictures: set<Picture>
    var storage: set<string>

    ghost predicate Valid()
      reads this
    {
      Counted(fileInfo, userFiles, pictures) && Stored(fileInfo, storage) && UrlsUnique(pictures)
    }

    constructor ()
      ensures Valid() && fileInfo == map[] && userFiles == {} && pictures == {} && storage == {}
    {
      fileInfo, userFiles, pictures, storage := map[], {}, {}, {};
    }

    /** The upload of a new file: its bytes are stored, then the two rows follow (storeFileinfo). */
    method Upload(user: string, md5: string, name: string, fileId: string)
      requires Valid() && md5 !in fileInfo && fileId !in storage
      modifies this
      ensures Valid() && fileInfo == old(fileInfo)[md5 := FileInfo(1, fileId)] && storage == old(storage) + {fileId}
      ensures userFiles == old(userFiles) + {UserFile(user, md5, name)} && pictures == old(pictures)
    {
      var row := UserFile(user, md5, name);
      NoRow(fileInfo, userFiles, pictures, row);
      AddFile(fileInfo, userFiles, pictures, row, fileId);
      StoredPlus(fileInfo, storage, md5, fileId);
      hide Counted, Stored, UrlsUnique;
      storage := storage + {fileId};
      fileInfo := fileInfo[md5 := FileInfo(1, fileId)];
      userFiles := userFiles + {row};
    }

    /** handleDealMd5: counts first, and takes the count back when the insert fails. */
    method DealMd5(user: string, md5: string, name: string, insertFails: bool) returns (state: Md5State)
      requires Valid()
      modifies this
      ensures Valid() && storage == old(storage) && pictures == old(pictures)
      ensures state == (if md5 !in old(fileInfo) then Md5Failed
                        else if UserFile(user, md5, name) in old(userFiles) then Md5FileExists
                        else if insertFails then Md5Failed else Md5Ok)
      ensures userFiles == old(userFiles) + (if state == Md5Ok then {UserFile(user, md5, name)} else {})
      ensures fileInfo == if state == Md5Ok then Increment(old(fileInfo), md5, []) else old(fileInfo)
    {
      hide Counted, Stored, UrlsUnique;
      if md5 !in fileInfo {
        return Md5Failed;
      }
      var row := UserFile(user, md5, name);
      if row in userFiles {
        return Md5FileExists;
      }
      var count := fileInfo[md5].count;
      AddFile(fileInfo, userFiles, pictures, row, []);
      StoredSame(fileInfo, storage, md5, count + 1);
      fileInfo := fileInfo[md5 := fileInfo[md5].(count := count + 1)];
      if insertFails {
        fileInfo := fileInfo[md5 := fileInfo[md5].(count := count)];
        assert fileInfo == old(fileInfo);
        return Md5Failed;
      }
      userFiles := userFiles + {row};
      state := Md5Ok;
    }

    /** handleSaveFile: the same without the undo, so a failed insert leaves one count too many. */
    method SaveFile(user: string, md5: string, name: string, insertFails: bool) returns (outcome: Outcome)
      requires Valid()
      modifies this
      ensures storage == old(storage) && pictures == old(pictures)
      ensures outcome == (if UserFile(user, md5, name) in old(userFiles) then FileExists
                          else if md5 !in old(fileInfo) || insertFails then Fail else Ok)
      ensures fileInfo == (if md5 in old(fileInfo) && UserFile(user, md5, name) !in old(userFiles)
                           then Increment(old(fileInfo), md5, []) else old(fileInfo))
      ensures Valid() <==> (insertFails ==> UserFile(user, md5, name) in old(userFiles) || md5 !in old(fileInfo))
      ensures userFiles == old(userFiles) + (if outcome == Ok then {UserFile(user, md5, name)} else {})
    {
      hide Counted, Stored, UrlsUnique;
      var row := UserFile(user, md5, name);
      if row in userFiles {
        return FileExists;
      }
      if md5 !in fileInfo {
        return Fail;
      }
      AddFile(fileInfo, userFiles, pictures, row, []);
      OvercountBreaks(fileInfo, userFiles, pictures, md5);
      StoredSame(fileInfo, storage, md5, fileInfo[md5].count + 1);
      fileInfo := fileInfo[md5 := fileInfo[md5].(count := fileInfo[md5].count + 1)];
      if insertFails {
        return Fail;
      }
      userFiles := userFiles + {row};
      outcome := Ok;
    }

    /** The count - 1 of both reclaiming handlers, up to the removal from storage. */
    method Release(md5: string)
      requires md5 in fileInfo && fileInfo[md5].count > 0
      modifies this`fileInfo, this`storage
      ensures fileInfo == Decrement(old(fileInfo), md5)
      ensures storage == old(storage) - Reclaimed(old(fileInfo), md5)
    {
      var count := fileInfo[md5].count;
      if count > 0 {
        count := count - 1;
        fileInfo := fileInfo[md5 := fileInfo[md5].(count := count)];
      }
      if count == 0 {
        var fileId := fileInfo[md5].fileId;
        fileInfo := fileInfo - {md5};
        storage := storage - {fileId};
      }
    }

    /**
     * handleDeleteFile does not look whether the user has the file before it counts down. So a file that some
     * row still names leaves storage exactly when the user has no such row and the count of the file is one.
     */
    method DeleteFile(user: string, md5: string, name: string) returns (outcome: Outcome)
      requires Valid()
      modifies this
      ensures outcome == if md5 in old(fileInfo) then Ok else Fail
      ensures Valid() <==> UserFile(user, md5, name) in old(userFiles) || md5 !in old(fileInfo)
      ensures userFiles == old(userFiles) - {UserFile(user, md5, name)} && pictures == old(pictures)
      ensures fileInfo == if md5 in old(fileInfo) then Decrement(old(fileInfo), md5) else old(fileInfo)
      ensures storage == old(storage) - Reclaimed(old(fileInfo), md5)
      ensures Lost(old(fileInfo), userFiles, pictures, storage) <==>
        UserFile(user, md5, name) !in old(userFiles) && md5 in old(fileInfo) && old(fileInfo)[md5].count == 1
    {
      hide Counted, Stored, UrlsUnique, Refs, Decrement, Lost, Reclaimed;
      var row := UserFile(user, md5, name);
      userFiles := userFiles - {row};
      LostBy(fileInfo, old(userFiles), pictures, storage, row);
      if md5 !in fileInfo {
        NoRow(fileInfo, old(userFiles), pictures, row);
        NothingReclaimed(fileInfo, md5);
        assert userFiles == old(userFiles) && storage - {} == storage;
        return Fail;
      }
      if row in old(userFiles) {
        RemoveFile(fileInfo, old(userFiles), pictures, row);
      } else {
        assert userFiles == old(userFiles);
        UndercountBreaks(fileInfo, userFiles, pictures, md5);
      }
      PositiveCount(fileInfo, old(userFiles), pictures, md5);
      StoredRelease(fileInfo, storage, md5);
      Release(md5);
      outcome := Ok;
    }

    /** handleSharePicture inserts its row before it looks whether the file exists. */
    method SharePicture(user: string, md5: string, urlmd5: string) returns (outcome: Outcome)
      requires Valid() && forall p :: p in pictures ==> p.urlmd5 != urlmd5
      modifies this
      ensures outcome == if md5 in old(fileInfo) then Ok else Fail
      ensures Valid() <==> md5 in old(fileInfo)
      ensures fileInfo == if md5 in old(fileInfo) then Increment(old(fileInfo), md5, []) else old(fileInfo)
      ensures pictures == old(pictures) + {Picture(user, md5, urlmd5)} && userFiles == old(userFiles) && storage == old(storage)
    {
      hide Counted, Stored, Refs;
      var p := Picture(user, md5, urlmd5);
      pictures := pictures + {p};
      if md5 !in fileInfo {
        DanglingBreaks(fileInfo, userFiles, old(pictures), p);
        return Fail;
      }
      AddPicture(fileInfo, userFiles, old(pictures), p);
      StoredSame(fileInfo, storage, md5, fileInfo[md5].count + 1);
      fileInfo := fileInfo[md5 := fileInfo[md5].(count := fileInfo[md5].count + 1)];
      outcome := Ok;
    }

    /** handleCancelSharePicture finds the file by the url, and releases it. */
    method CancelSharePicture(user: string, urlmd5: string)
      requires Valid()
      modifies this
      ensures Valid() && userFiles == old(userFiles)
      ensures pictures == set p | p in old(pictures) && !(p.user == user && p.urlmd5 == urlmd5)
      ensures forall p :: p in old(pictures) && p.user == user && p.urlmd5 == urlmd5 ==>
        && p.md5 in old(fileInfo) && fileInfo == Decrement(old(fileInfo), p.md5)
        && storage == old(storage) - Reclaimed(old(fileInfo), p.md5)
      ensures (forall p :: p in old(pictures) ==> p.user != user || p.urlmd5 != urlmd5) ==>
        fileInfo == old(fileInfo) && storage == old(storage)
      ensures !Lost(old(fileInfo), userFiles, pictures, storage)
    {
      hide Counted, Stored, Refs, Decrement, Lost, Reclaimed;
      if !(exists p :: p in pictures && p.user == user && p.urlmd5 == urlmd5) {
        assert pictures == set p | p in old(pictures) && !(p.user == user && p.urlmd5 == urlmd5);
        NoneLost(fileInfo, fileInfo, userFiles, pictures, storage);
        return;
      }
      var p :| p in pictures && p.urlmd5 == urlmd5;
      RemovePicture(fileInfo, userFiles, pictures, p);
      PositiveCount(fileInfo, userFiles, pictures, p.md5);
      StoredRelease(fileInfo, storage, p.md5);
      pictures := set q | q in pictures && !(q.user == user && q.urlmd5 == urlmd5);
      assert pictures == old(pictures) - {p};
      DecrementKeeps(fileInfo, p.md5);
      Release(p.md5);
      NoneLost(old(fileInfo), fileInfo, userFiles, pictures, storage);
    }
  }

  lemma DecrementKeeps(info: map<string, FileInfo>, md5: string)
    requires md5 in info
    ensures forall m :: m in Decrement(info, md5) ==> m in info && Decrement(info, md5)[m].fileId == info[m].fileId
  {
  }

  /** While the counts stay right, no file is lost. */
  lemma NoneLost(before: map<string, FileInfo>, info: map<string, FileInfo>, files: set<UserFile>, pictures: set<Picture>,
                 storage: set<string>)
    requires Counted(info, files, pictures) && Stored(info, storage)
    requires forall m :: m in info ==> m in before && info[m].fileId == before[m].fileId
    ensures !Lost(before, files, pictures, storage)
  {
  }

  lemma PositiveCount(info: map<string, FileInfo>, files: set<UserFile>, pictures: set<Picture>, md5: string)
    requires Counted(info, files, pictures) && md5 in info
    ensures info[md5].count > 0
  {
  }

  lemma StoredRelease(info: map<string, FileInfo>, storage: set<string>, md5: string)
    requires Stored(info, storage) && md5 in info && info[md5].count > 0
    ensures var after := Decrement(info, md5);
      Stored(after, storage - Reclaimed(info, md5))
  {
    assert storage - {} == storage;
    if info[md5].count == 1 {
      StoredMinus(info, storage, md5);
    } else {
      StoredSame(info, storage, md5, info[md5].count - 1);
    }
  }

  /** An unknown file has no row. */
  lemma NoRow(info: map<string, FileInfo>, files: set<UserFile>, pictures: set<Picture>, row: UserFile)
    requires Counted(info, files, pictures) && row.md5 !in info
    ensures row !in files
  {
    if row in files {
      RowIsCounted(files, pictures, row);
    }
  }

  // ---------- whole runs ----------

  datatype Request =
    | UploadRequest(user: string, md5: string, name: string, fileId: string)
    | Md5Request(user: string, md5: string, name: string, insertFails: bool)
    | SaveRequest(user: string, md5: string, name: string)
    | DeleteRequest(user: string, md5: string, name: string)
    | ShareRequest(user: string, md5: string, urlmd5: string)
    | CancelRequest(user: string, urlmd5: string)

  /** Uploads bring new files, deletes name a row of the user, shares name a known file and get a fresh url. */
  predicate Proper(t: Tables, r: Request)
    reads t
  {
    match r
    case UploadRequest(_, md5, _, fileId) => md5 !in t.fileInfo && fileId !in t.storage
    case DeleteRequest(user, md5, name) => UserFile(user, md5, name) in t.userFiles
    case ShareRequest(_, md5, urlmd5) => md5 in t.fileInfo && forall p :: p in t.pictures ==> p.urlmd5 != urlmd5
    case _ => true
  }

  /** Any proper request, in any order: the counts stay right and no referenced file leaves storage. */
  method Serve(t: Tables, r: Request)
    requires t.Valid() && Proper(t, r)
    modifies t
    ensures t.Valid()
  {
    hide Counted, Stored, UrlsUnique, Refs;
    match r
    case UploadRequest(user, md5, name, fileId) => t.Upload(user, md5, name, fileId);
    case Md5Request(user, md5, name, insertFails) => var _ := t.DealMd5(user, md5, name, insertFails);
    case SaveRequest(user, md5, name) => var _ := t.SaveFile(user, md5, name, false);
    case DeleteRequest(user, md5, name) => var _ := t.DeleteFile(user, md5, name);
    case ShareRequest(user, md5, urlmd5) => var _ := t.SharePicture(user, md5, urlmd5);
    case CancelRequest(user, urlmd5) => t.CancelSharePicture(user, urlmd5);
  }

  /** A whole run from empty tables, up to the first request that is not proper. */
  method ServeAll(requests: seq<Request>) returns (t: Tables, served: nat)
    ensures fresh(t) && t.Valid()
    ensures served <= |requests| && (served < |requests| ==> !Proper(t, requests[served]))
  {
    hide Counted, Stored, UrlsUnique, Refs;
    t := new Tables();
    served := 0;
    while served < |requests| && Proper(t, requests[served])
      invariant fresh(t) && t.Valid() && served <= |requests|
    {
      Serve(t, requests[served]);
      served := served + 1;
    }
  }

  // ---------- how the counts go wrong ----------

  /** A user who never had the file deletes it: the owner's row stays, the file is gone. */
  method LoseFile(owner: string, other: string, md5: string, name: string, fileId: string) returns (t: Tables)
    requires owner != other
    ensures fresh(t) && !t.Valid()
    ensures t.userFiles == {UserFile(owner, md5, name)} && t.fileInfo == map[] && t.storage == {}
  {
    t := new Tables();
    t.Upload(owner, md5, name, fileId);
    var _ := t.DeleteFile(other, md5, name);
  }

  /** A save whose insert fails: two references are counted, one row names the file. */
  method CountOneTooMany(owner: string, other: string, md5: string, name: string, fileId: string) returns (t: Tables)
    requires owner != other
    ensures fresh(t) && !t.Valid()
    ensures t.fileInfo == map[md5 := FileInfo(2, fileId)] && Refs(t.userFiles, t.pictures, md5) == 1
  {
    t := new Tables();
    t.Upload(owner, md5, name, fileId);
    var _ := t.SaveFile(other, md5, name, true);
    assert FilesOf(t.userFiles, md5) == {UserFile(owner, md5, name)} && PicturesOf(t.pictures, md5) == {};
  }

  /** A picture of a file that was never uploaded: its row stays, and counts for nothing. */
  method ShareNothing(user: string, md5: string, urlmd5: string) returns (t: Tables)
    ensures fresh(t) && !t.Valid()
    ensures t.pictures == {Picture(user, md5, urlmd5)} && t.fileInfo == map[]
  {
    t := new Tables();
    var _ := t.SharePicture(user, md5, urlmd5);
  }
}
