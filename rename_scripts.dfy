/**
 * The three rename scripts the extension changer offers for download
 * (`downloadScript` in apps/utils/app/file-extension-changer/page.tsx). Each
 * is a fixed template into which the old and the new extension are written
 * once, as the values of the script's two variables (batch and shell) or as
 * the defaults of its two parameters (PowerShell). The scripts re-find the
 * files by wildcard when they run; the model keeps only their text and the
 * files the browser is asked to save.
 */
module RenameScripts {
  import opened JsString

  /** A script text with two holes: the old extension, then the new one. */
  datatype Template = Template(head: string, mid: string, tail: string) {
    function Fill(oldExt: string, newExt: string): string {
      head + oldExt + mid + newExt + tail
    }
  }

  /** The batch script (`rename_files.bat`), up to the value of `old_ext`. */
  const BatchHead: string :=
      "@echo off\n"
    + "REM Batch script for bulk file extension renaming\n"
    + "REM Usage: Place this script in the folder containing files to rename\n"
    + "\n"
    + "set old_ext="

  const BatchMid: string :=
      "\n"
    + "set new_ext="

  const BatchTail: string :=
      "\n"
    + "\n"
    + "echo Starting bulk file renaming...\n"
    + "echo Old extension: .%old_ext%\n"
    + "echo New extension: .%new_ext%\n"
    + "\n"
    + "for %%f in (*.%old_ext%) do (\n"
    + "    if exist \"%%f\" (\n"
    + "        ren \"%%f\" \"%%~nf.%new_ext%\"\n"
    + "        echo Renamed: %%f -^> %%~nf.%new_ext%\n"
    + "    )\n"
    + ")\n"
    + "\n"
    + "echo.\n"
    + "echo Complete! All .%old_ext% files have been renamed to .%new_ext%\n"
    + "pause"

  /** The POSIX shell script (`rename_files.sh`), up to the value of `old_ext`. */
  const ShellHead: string :=
      "#" + "!/bin/bash\n"
    + "# 批量修改文件后缀名脚本\n"
    + "# 使用方法: 将此脚本放在需要修改的文件夹中运行\n"
    + "\n"
    + "old_ext=\""

  const ShellMid: string :=
      "\"\n"
    + "new_ext=\""

  const ShellTail: string :=
      "\"\n"
    + "\n"
    + "echo \"开始批量重命名文件...\"\n"
    + "echo \"旧后缀名: .$old_ext\"\n"
    + "echo \"新后缀名: .$new_ext\"\n"
    + "\n"
    + "for f in *.$old_ext; do\n"
    + "    if [ -f \"$f\" ]; then\n"
    + "        new_name=\"${f%.*}.$new_ext\"\n"
    + "        mv \"$f\" \"$new_name\"\n"
    + "        echo \"重命名: $f -> $new_name\"\n"
    + "    fi\n"
    + "done\n"
    + "\n"
    + "echo \"\"\n"
    + "echo \"完成！所有 .$old_ext 文件已重命名为 .$new_ext\""

  /** The PowerShell script (`rename_files.ps1`), up to the default of `$OldExtension`. */
  const PowerShellHead: string :=
      "#" + " PowerShell script for bulk file extension renaming\n"
    + "# Usage: Place this script in the folder containing files to rename\n"
    + "# Run with: powershell -ExecutionPolicy Bypass -File rename_files.ps1\n"
    + "\n"
    + "param(\n"
    + "    [string]$OldExtension = \""

  const PowerShellMid: string :=
      "\",\n"
    + "    [string]$NewExtension = \""

  const PowerShellTail: string :=
      "\"\n"
    + ")\n"
    + "\n"
    + "Write-Host \"Starting bulk file renaming...\" -ForegroundColor Green\n"
    + "Write-Host \"Old extension: .$OldExtension\" -ForegroundColor Yellow\n"
    + "Write-Host \"New extension: .$NewExtension\" -ForegroundColor Yellow\n"
    + "\n"
    + "$files = Get-ChildItem -Filter \"*.$OldExtension\"\n"
    + "\n"
    + "if ($files.Count -eq 0) {\n"
    + "    Write-Host \"No files found with extension .$OldExtension\" -ForegroundColor Red\n"
    + "    exit\n"
    + "}\n"
    + "\n"
    + "foreach ($file in $files) {\n"
    + "    $newName = $file.BaseName + \".$NewExtension\"\n"
    + "    try {\n"
    + "        Rename-Item -Path $file.FullName -NewName $newName\n"
    + "        Write-Host \"Renamed: $($file.Name) -> $newName\" -ForegroundColor Green\n"
    + "    }\n"
    + "    catch {\n"
    + "        Write-Host \"Error renaming $($file.Name): $_\" -ForegroundColor Red\n"
    + "    }\n"
    + "}\n"
    + "\n"
    + "Write-Host \"\"\n"
    + "Write-Host \"Complete! All .$OldExtension files have been renamed to .$NewExtension\" -ForegroundColor Green\n"
    + "Read-Host \"Press Enter to continue\""

  const BatchTemplate: Template := Template(BatchHead, BatchMid, BatchTail)
  const ShellTemplate: Template := Template(ShellHead, ShellMid, ShellTail)
  const PowerShellTemplate: Template := Template(PowerShellHead, PowerShellMid, PowerShellTail)

  function BatchScript(oldExt: string, newExt: string): string {
    BatchTemplate.Fill(oldExt, newExt)
  }

  function ShellScript(oldExt: string, newExt: string): string {
    ShellTemplate.Fill(oldExt, newExt)
  }

  function PowerShellScript(oldExt: string, newExt: string): string {
    PowerShellTemplate.Fill(oldExt, newExt)
  }

  /** `s` is non-empty and its first character is `c`. */
  predicate StartsWith(s: string, c: char) {
    |s| > 0 && s[0] == c
  }

  /** The first `c` of a string that starts with a `c`-free prefix `x` sits right after `x`. */
  lemma FirstAfterFreePrefix(x: string, c: char, rest: string)
    requires c !in x
    ensures IndexOf(x + [c] + rest, [c]) == |x|
  {
    var s := x + [c] + rest;
    IndexOfIsLeftmost(s, [c]);
    assert s[|x|..|x| + 1] == [c];
    assert OccursAt(s, [c], |x|);
    forall j | 0 <= j < |x| ensures !OccursAt(s, [c], j) {
      assert s[j..j + 1] == [x[j]];
    }
  }

  /** Strings that agree after a common prefix agree. */
  lemma CancelPrefix(p: string, x: string, y: string)
    requires p + x == p + y
    ensures x == y
  {
    assert x == (p + x)[|p|..];
    assert y == (p + y)[|p|..];
  }

  /** Strings that agree before a common suffix agree. */
  lemma CancelSuffix(x: string, y: string, q: string)
    requires x + q == y + q
    ensures x == y
  {
    assert x == (x + q)[..|x|];
    assert y == (y + q)[..|y|];
  }

  /** A `c`-free prefix ending at the first `c` is determined by the string. */
  lemma SplitAtFirst(x1: string, x2: string, c: char, r1: string, r2: string)
    requires c !in x1 && c !in x2
    requires x1 + [c] + r1 == x2 + [c] + r2
    ensures x1 == x2 && r1 == r2
  {
    FirstAfterFreePrefix(x1, c, r1);
    FirstAfterFreePrefix(x2, c, r2);
    var s := x1 + [c] + r1;
    assert x1 == s[..|x1|];
    assert x2 == (x2 + [c] + r2)[..|x2|];
    CancelPrefix(x1 + [c], r1, r2);
  }

  /** The batch value of `old_ext` ends at the line break. */
  lemma BatchMidStartsWith()
    ensures StartsWith(BatchMid, '\n')
  {
  }

  /** The shell value of `old_ext` ends at its closing quote. */
  lemma ShellMidStartsWith()
    ensures StartsWith(ShellMid, '"')
  {
  }

  /** The PowerShell default of `$OldExtension` ends at its closing quote. */
  lemma PowerShellMidStartsWith()
    ensures StartsWith(PowerShellMid, '"')
  {
  }

  /**
   * When the text after the first hole starts with a character the old
   * extension cannot contain, a filled template determines both extensions.
   */
  lemma FillDeterminesExtensions(t: Template, c: char, o1: string, n1: string, o2: string, n2: string)
    requires StartsWith(t.mid, c) && c !in o1 && c !in o2
    requires t.Fill(o1, n1) == t.Fill(o2, n2)
    ensures o1 == o2 && n1 == n2
  {
    var m := t.mid[1..];
    var r1, r2 := o1 + [c] + (m + (n1 + t.tail)), o2 + [c] + (m + (n2 + t.tail));
    FillAsRest(t, c, o1, n1);
    FillAsRest(t, c, o2, n2);
    CancelPrefix(t.head, r1, r2);
    SplitAtFirst(o1, o2, c, m + (n1 + t.tail), m + (n2 + t.tail));
    CancelPrefix(m, n1 + t.tail, n2 + t.tail);
    CancelSuffix(n1, n2, t.tail);
  }

  /** A filled template regrouped around the first character of its middle. */
  lemma FillAsRest(t: Template, c: char, o: string, n: string)
    requires StartsWith(t.mid, c)
    ensures t.Fill(o, n) == t.head + (o + [c] + (t.mid[1..] + (n + t.tail)))
  {
    assert t.mid == [c] + t.mid[1..];
  }

  /** Two single-line extension pairs give the same batch script only if they are the same pair. */
  lemma BatchScriptDeterminesExtensions(o1: string, n1: string, o2: string, n2: string)
    requires '\n' !in o1 && '\n' !in o2
    requires BatchScript(o1, n1) == BatchScript(o2, n2)
    ensures o1 == o2 && n1 == n2
  {
    BatchMidStartsWith();
    FillDeterminesExtensions(BatchTemplate, '\n', o1, n1, o2, n2);
  }

  /** Two quote-free extension pairs give the same shell script only if they are the same pair. */
  lemma ShellScriptDeterminesExtensions(o1: string, n1: string, o2: string, n2: string)
    requires '"' !in o1 && '"' !in o2
    requires ShellScript(o1, n1) == ShellScript(o2, n2)
    ensures o1 == o2 && n1 == n2
  {
    ShellMidStartsWith();
    FillDeterminesExtensions(ShellTemplate, '"', o1, n1, o2, n2);
  }

  /** Two quote-free extension pairs give the same PowerShell script only if they are the same pair. */
  lemma PowerShellScriptDeterminesExtensions(o1: string, n1: string, o2: string, n2: string)
    requires '"' !in o1 && '"' !in o2
    requires PowerShellScript(o1, n1) == PowerShellScript(o2, n2)
    ensures o1 == o2 && n1 == n2
  {
    PowerShellMidStartsWith();
    FillDeterminesExtensions(PowerShellTemplate, '"', o1, n1, o2, n2);
  }

  // ---------------------------------------------------------------------
  // The downloads
  // ---------------------------------------------------------------------

  /** One file handed to the browser: its name, the Blob's MIME type and its text. */
  datatype Download = Download(fileName: string, mimeType: string, content: string)

  const ByteOrderMark: char := '\U{FEFF}'

  /** The three files `downloadScript` saves, in the order it saves them. */
  function Downloads(oldExt: string, newExt: string): seq<Download> {
    DownloadsOf(BatchScript(oldExt, newExt), ShellScript(oldExt, newExt), PowerShellScript(oldExt, newExt))
  }

  /** The three downloads for given script texts: only the batch file gets a byte-order mark. */
  function DownloadsOf(batch: string, shell: string, powerShell: string): seq<Download> {
    [ Download("rename_files.bat", "text/plain;charset=utf-8", [ByteOrderMark] + batch),
      Download("rename_files.sh", "text/plain", shell),
      Download("rename_files.ps1", "text/plain;charset=utf-8", powerShell) ]
  }

  /** A filled template starts with the template's head. */
  lemma FillStartsWithHead(t: Template, oldExt: string, newExt: string)
    requires |t.head| > 0
    ensures StartsWith(t.Fill(oldExt, newExt), t.head[0])
  {
  }

  /** The shell head is the `#!` line and what follows it. */
  lemma ShellHeadStartsWithHash()
    ensures StartsWith(ShellHead, '#')
  {
  }

  /** The PowerShell head opens with a comment line. */
  lemma PowerShellHeadStartsWithHash()
    ensures StartsWith(PowerShellHead, '#')
  {
  }

  /** The shell script starts with its `#!` line, so not with a byte-order mark. */
  lemma ShellScriptStartsWithHash(oldExt: string, newExt: string)
    ensures StartsWith(ShellScript(oldExt, newExt), '#')
  {
    ShellHeadStartsWithHash();
    FillStartsWithHead(ShellTemplate, oldExt, newExt);
  }

  /** The PowerShell script starts with a comment line, so not with a byte-order mark. */
  lemma PowerShellScriptStartsWithHash(oldExt: string, newExt: string)
    ensures StartsWith(PowerShellScript(oldExt, newExt), '#')
  {
    PowerShellHeadStartsWithHash();
    FillStartsWithHead(PowerShellTemplate, oldExt, newExt);
  }

  /**
   * Exactly the batch file starts with a byte-order mark, and removing it
   * leaves the batch script; the other two files are their scripts as they
   * are.
   */
  lemma OnlyBatchDownloadHasByteOrderMark(oldExt: string, newExt: string)
    ensures MarksOnlyBatch(Downloads(oldExt, newExt), BatchScript(oldExt, newExt),
                           ShellScript(oldExt, newExt), PowerShellScript(oldExt, newExt))
  {
    ShellScriptStartsWithHash(oldExt, newExt);
    PowerShellScriptStartsWithHash(oldExt, newExt);
    MarkOnlyOnBatch(BatchScript(oldExt, newExt), ShellScript(oldExt, newExt), PowerShellScript(oldExt, newExt));
  }

  /**
   * `ds` are the three downloads in order: `.bat` as UTF-8 text, `.sh` as
   * plain text, `.ps1` as UTF-8 text; only the batch file is marked, and each
   * holds its script.
   */
  predicate MarksOnlyBatch(ds: seq<Download>, batch: string, shell: string, powerShell: string) {
    && |ds| == 3
    && ds[0].fileName == "rename_files.bat" && ds[0].mimeType == "text/plain;charset=utf-8"
    && ds[1].fileName == "rename_files.sh" && ds[1].mimeType == "text/plain"
    && ds[2].fileName == "rename_files.ps1" && ds[2].mimeType == "text/plain;charset=utf-8"
    && (forall k :: 0 <= k < |ds| ==>
          (StartsWith(ds[k].content, ByteOrderMark) <==> ds[k].fileName == "rename_files.bat"))
    && StartsWith(ds[0].content, ByteOrderMark) && ds[0].content[1..] == batch
    && ds[1].content == shell
    && ds[2].content == powerShell
  }

  /** Scripts that start with `#` leave the batch file the only one with a byte-order mark. */
  lemma MarkOnlyOnBatch(batch: string, shell: string, powerShell: string)
    requires StartsWith(shell, '#') && StartsWith(powerShell, '#')
    ensures MarksOnlyBatch(DownloadsOf(batch, shell, powerShell), batch, shell, powerShell)
  {
    var ds := DownloadsOf(batch, shell, powerShell);
    assert ds[0].content[1..] == batch;
  }
}
