/** The records the storage engine and the view model pass around. */
module Models {

  /** One vocabulary entry (riyu/Models/Word.cs). The surrogate key `Id`
      exists only inside the per-sheet database and is left out. */
  datatype Word = Word(japanese: string, chinese: string, partOfSpeech: string)

  /** One entry of the sheet index (SheetInfo in DatabaseService.cs):
      display name, row count and the full path of the sheet's folder. */
  datatype SheetInfo = SheetInfo(name: string, wordCount: nat, folderPath: string)
}
