/** What the program shows the user (uicomponents.py): success and error
    banners, and download buttons offering a file. */
module Events {

  /** One member of a zip archive: its name and the pages of the PDF
      stored under it. */
  datatype ZipEntry<Page> = ZipEntry(fileName: string, pages: seq<Page>)

  /** A file offered for download: a PDF or a zip of PDFs. */
  datatype Artifact<Page> = Pdf(pages: seq<Page>) | Zip(entries: seq<ZipEntry<Page>>)

  /** `show_error`, `show_success`, and `download_button` (or Streamlit's
      own `download_button`) with its label and file name. */
  datatype Event<Page> =
    | ShowError(message: string)
    | ShowSuccess(message: string)
    | Download(buttonLabel: string, fileName: string, artifact: Artifact<Page>)
}
