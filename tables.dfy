/** Rows of the three database tables the document hooks read and write
    (src/integrations/supabase/types.ts and src/hooks/useKlingerCategories.ts).
    Time stamps are milliseconds; generated ids and time stamps are supplied
    by the caller. */
module Tables {
  import opened DocumentTypes

  /** A row of `klinger_documents`. */
  datatype DocumentRow = DocumentRow(
    id: string,
    name: string,
    filename: string,
    extension: string,
    category: string,
    storagePath: string,
    size: nat,
    uploadedBy: string,
    status: Status,
    createdAt: int)

  /** A row of `klinger_document_versions`. */
  datatype VersionRow = VersionRow(
    id: string,
    documentId: string,
    version: string,
    storagePath: string,
    size: nat,
    uploadedBy: string,
    status: Status,
    createdAt: int)

  /** A row of `klinger_categories`. */
  datatype CategoryRow = CategoryRow(
    id: string,
    path: string,
    name: string,
    createdBy: string,
    createdAt: int)
}
