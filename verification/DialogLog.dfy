/**
 The dialog and download log as it is kept: two bounded lists, edited in place. Every
 ingestion performs one step of `DialogSpec` on one list and leaves the other alone.
 */
module DialogLog {
  import opened Wrappers
  import opened DialogSpec

  datatype DialogData = DialogData(kind: string, message: string, defaultValue: Option<string>, handler: string)
  datatype Answer = Answer(accepted: bool, userText: Option<string>)
  datatype DownloadEnd = Completed(filepath: Option<string>) | Canceled

  /** A dialog is keyed by its browsing context. */
  type Dialog = Record<string, DialogData, Answer>

  /** A download is keyed by context and URL; its data is the suggested file name, and it
      is in flight (`will-begin`) until it ends. */
  type Download = Record<(string, string), string, DownloadEnd>

  /** The search from the newest record back. */
  method FindLastOpen<K(==), D, O>(log: seq<Record<K, D, O>>, key: K) returns (at: Option<nat>)
    ensures at == LastOpen(log, key)
  {
    var i := |log|;
    while i > 0
      invariant 0 <= i <= |log|
      invariant LastOpen(log, key) == LastOpen(log[..i], key)
    {
      assert log[..i][..i - 1] == log[..i - 1];
      if log[i - 1].key == key && log[i - 1].outcome.None? {
        return Some(i - 1);
      }
      i := i - 1;
    }
    return None;
  }

  class Inner {
    var dialogs: seq<Dialog>
    var downloads: seq<Download>

    constructor ()
      ensures dialogs == [] && downloads == []
    {
      dialogs, downloads := [], [];
    }

    method PushDialog(d: Dialog)
      modifies this`dialogs
      ensures dialogs == Push(old(dialogs), d)
    {
      dialogs := dialogs + [d];
      if |dialogs| > MAX_ENTRIES {
        var overflow := |dialogs| - MAX_ENTRIES;
        dialogs := dialogs[overflow..];
      }
    }

    method PushDownload(d: Download)
      modifies this`downloads
      ensures downloads == Push(old(downloads), d)
    {
      downloads := downloads + [d];
      if |downloads| > MAX_ENTRIES {
        var overflow := |downloads| - MAX_ENTRIES;
        downloads := downloads[overflow..];
      }
    }

    method IngestOpened(context: string, data: DialogData)
      modifies this`dialogs
      ensures dialogs == Step(old(dialogs), Opened(context, data))
    {
      PushDialog(Record(context, data, None));
    }

    method IngestClosed(context: string, kind: string, accepted: bool, userText: Option<string>)
      modifies this`dialogs
      ensures dialogs == Step(old(dialogs), Closed(context, Answer(accepted, userText), DialogData(kind, "", None, "")))
    {
      var at := FindLastOpen(dialogs, context);
      if at.Some? {
        dialogs := dialogs[at.value := dialogs[at.value].(outcome := Some(Answer(accepted, userText)))];
        return;
      }
      PushDialog(Record(context, DialogData(kind, "", None, ""), Some(Answer(accepted, userText))));
    }

    method IngestDownloadBegin(context: string, url: string, suggestedFilename: string)
      modifies this`downloads
      ensures downloads == Step(old(downloads), Opened((context, url), suggestedFilename))
    {
      PushDownload(Record((context, url), suggestedFilename, None));
    }

    /** `baseName` is the last component of the finished file's path, empty without one. */
    method IngestDownloadEnd(context: string, url: string, end: DownloadEnd, baseName: string)
      modifies this`downloads
      ensures downloads == Step(old(downloads), Closed((context, url), end, baseName))
    {
      var at := FindLastOpen(downloads, (context, url));
      if at.Some? {
        downloads := downloads[at.value := downloads[at.value].(outcome := Some(end))];
        return;
      }
      PushDownload(Record((context, url), baseName, Some(end)));
    }

    method Clear()
      modifies this
      ensures dialogs == [] && downloads == []
    {
      dialogs, downloads := [], [];
    }

    method OpenDialogs() returns (open: seq<Dialog>)
      ensures open == OpenRecords(dialogs)
    {
      open := [];
      for i := 0 to |dialogs|
        invariant open == OpenRecords(dialogs[..i])
      {
        assert dialogs[..i + 1][..i] == dialogs[..i];
        if dialogs[i].outcome.None? {
          open := open + [dialogs[i]];
        }
      }
      assert dialogs[..|dialogs|] == dialogs;
    }
  }
}
